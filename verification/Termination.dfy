/** When the recursion that fills in digests comes to an end. */
module Termination {
  import opened Basics
  import opened Trie
  import opened Encoding
  import opened Resolution

  /** The digest is in the node. */
  predicate Shows(n: Node, hash: Hash) {
    match n
    case Branch(children) => exists i :: i in children && Shows(children[i], hash)
    case Extension(_, child) => Shows(child, hash)
    case Digest(h) => h == hash
    case _ => false
  }

  /** From the node the store leads through these digests, each in the node that is stored for the one
      before it. */
  predicate IsWay(store: Store, n: Node, way: seq<Hash>)
    decreases |way|
  {
    way == [] ||
    (Shows(n, way[0]) && ByDigest(way[0]) in store && IsWay(store, store[ByDigest(way[0])], way[1..]))
  }

  ghost predicate Repeats(way: seq<Hash>) {
    exists i, j :: 0 <= i < j < |way| && way[i] == way[j]
  }

  /** A way that comes back to where it started from. */
  ghost predicate ReachesItself(store: Store, hash: Hash) {
    exists way :: |way| > 1 && IsWay(store, Digest(hash), way) && way[|way| - 1] == hash
  }

  /** Where a depth is not enough there is a longer way. */
  lemma {:induction false} LongWay(root: Node, store: Store, depth: nat) returns (way: seq<Hash>)
    requires ResolveWithin(root, store, depth).None?
    ensures |way| == depth + 1 && IsWay(store, root, way)
    decreases depth, root
  {
    match root
    case Branch(children) =>
      var i :| i in children && ResolveWithin(children[i], store, depth).None?;
      way := LongWay(children[i], store, depth);
    case Extension(_, child) => way := LongWay(child, store, depth);
    case Digest(hash) =>
      if depth == 0 {
        way := [hash];
      } else {
        var rest := LongWay(store[ByDigest(hash)], store, depth - 1);
        way := [hash] + rest;
      }
  }

  lemma {:induction false} WayIsStored(store: Store, n: Node, way: seq<Hash>)
    requires IsWay(store, n, way)
    ensures forall hash :: hash in way ==> ByDigest(hash) in store
    decreases |way|
  {
    if way != [] {
      WayIsStored(store, store[ByDigest(way[0])], way[1..]);
      assert way == [way[0]] + way[1..];
    }
  }

  lemma {:induction false} DistinctWay(way: seq<Hash>)
    requires !Repeats(way)
    ensures |set hash | hash in way| == |way|
  {
    if way != [] {
      var last := |way| - 1;
      assert !Repeats(way[..last]) by {
        assert forall i :: 0 <= i < last ==> way[..last][i] == way[i];
      }
      DistinctWay(way[..last]);
      assert way == way[..last] + [way[last]];
      assert (set hash | hash in way) == (set hash | hash in way[..last]) + {way[last]};
      assert way[last] !in way[..last];
    }
  }

  /** Every digest in a node that is resolved is resolved with the same depth. */
  lemma {:induction false} ShownIsResolved(n: Node, store: Store, depth: nat, hash: Hash)
    requires Shows(n, hash) && ResolveWithin(n, store, depth).Some?
    ensures ResolveWithin(Digest(hash), store, depth).Some?
  {
    match n
    case Branch(children) =>
      var i :| i in children && Shows(children[i], hash);
      ShownIsResolved(children[i], store, depth, hash);
    case Extension(_, child) => ShownIsResolved(child, store, depth, hash);
    case Digest(_) =>
  }

  /** Every step of a way takes one from the depth. */
  lemma {:induction false} WayTakesDepth(n: Node, store: Store, depth: nat, way: seq<Hash>, i: nat)
    requires IsWay(store, n, way) && ResolveWithin(n, store, depth).Some? && i < |way|
    ensures i < depth && ResolveWithin(Digest(way[i]), store, depth - i).Some?
    decreases i
  {
    ShownIsResolved(n, store, depth, way[0]);
    if i > 0 {
      WayTakesDepth(store[ByDigest(way[0])], store, depth - 1, way[1..], i - 1);
    }
  }

  lemma {:induction false} WayFrom(store: Store, n: Node, way: seq<Hash>, i: nat)
    requires IsWay(store, n, way) && i < |way|
    ensures IsWay(store, Digest(way[i]), way[i..])
    decreases i
  {
    if i == 0 {
      assert way[0..] == way;
    } else {
      WayFrom(store, store[ByDigest(way[0])], way[1..], i - 1);
      assert way[1..][i - 1..] == way[i..];
    }
  }

  /** Where a way comes back, no depth is enough. */
  lemma {:induction false} NeverEnough(store: Store, hash: Hash, way: seq<Hash>, again: nat, depth: nat)
    requires IsWay(store, Digest(hash), way) && 0 < again < |way| && way[again] == hash
    ensures ResolveWithin(Digest(hash), store, depth).None?
    decreases depth
  {
    if ResolveWithin(Digest(hash), store, depth).Some? {
      WayTakesDepth(Digest(hash), store, depth, way, again);
      NeverEnough(store, hash, way, again, depth - again);
    }
  }

  /** Resolving ends if and only if no way from the root passes through the same digest twice. */
  lemma EndsExactly(root: Node, store: Store)
    ensures Ends(root, store) <==> forall way :: IsWay(store, root, way) ==> !Repeats(way)
  {
    if !Ends(root, store) {
      var way := LongWay(root, store, |store|);
      if !Repeats(way) {
        DistinctWay(way);
        WayIsStored(store, root, way);
        DigestsFit((set hash | hash in way), store.Keys);
      }
      assert Repeats(way);
    }
    if way :| IsWay(store, root, way) && Repeats(way) {
      var i, j :| 0 <= i < j < |way| && way[i] == way[j];
      WayFrom(store, root, way, i);
      forall depth: nat
        ensures ResolveWithin(root, store, depth).None?
      {
        if ResolveWithin(root, store, depth).Some? {
          WayTakesDepth(root, store, depth, way, i);
          NeverEnough(store, way[i], way[i..], j - i, depth - i);
        }
      }
    }
  }

  // Ranks.

  /** Every digest in the node ranks below the bound. */
  ghost predicate RanksBelow(rank: Hash -> nat, n: Node, bound: nat) {
    match n
    case Branch(children) => forall i :: i in children ==> RanksBelow(rank, children[i], bound)
    case Extension(_, child) => RanksBelow(rank, child, bound)
    case Digest(hash) => rank(hash) < bound
    case _ => true
  }

  /** The digests in a stored node rank below the digest it is stored under. */
  ghost predicate Ranked(rank: Hash -> nat, store: Store) {
    forall hash :: ByDigest(hash) in store ==> RanksBelow(rank, store[ByDigest(hash)], rank(hash))
  }

  lemma {:induction false} ShownRanksBelow(rank: Hash -> nat, n: Node, bound: nat, hash: Hash)
    requires RanksBelow(rank, n, bound) && Shows(n, hash)
    ensures rank(hash) < bound
  {
    match n
    case Branch(children) =>
      var i :| i in children && Shows(children[i], hash);
      ShownRanksBelow(rank, children[i], bound, hash);
    case Extension(_, child) => ShownRanksBelow(rank, child, bound, hash);
    case Digest(_) =>
  }

  /** Ranks fall on every way. */
  lemma {:induction false} RanksFall(rank: Hash -> nat, store: Store, n: Node, bound: nat, way: seq<Hash>, i: nat)
    requires Ranked(rank, store) && RanksBelow(rank, n, bound) && IsWay(store, n, way) && i < |way|
    ensures rank(way[i]) < bound
    decreases i
  {
    ShownRanksBelow(rank, n, bound, way[0]);
    if i > 0 {
      RanksFall(rank, store, store[ByDigest(way[0])], rank(way[0]), way[1..], i - 1);
    }
  }

  lemma RankedIsAcyclic(rank: Hash -> nat, store: Store, hash: Hash)
    requires Ranked(rank, store)
    ensures !ReachesItself(store, hash)
  {
    if way :| |way| > 1 && IsWay(store, Digest(hash), way) && way[|way| - 1] == hash {
      assert way[0] == hash;
      RanksFall(rank, store, store[ByDigest(hash)], rank(hash), way[1..], |way| - 2);
    }
  }

  lemma AcyclicEnds(root: Node, store: Store)
    requires forall hash :: !ReachesItself(store, hash)
    ensures Ends(root, store)
  {
    EndsExactly(root, store);
    if way :| IsWay(store, root, way) && Repeats(way) {
      var i, j :| 0 <= i < j < |way| && way[i] == way[j];
      WayFrom(store, root, way, i);
      CycleReachesItself(store, way[i..], j - i);
    }
  }

  lemma CycleReachesItself(store: Store, way: seq<Hash>, again: nat)
    requires 0 < again < |way| && way[again] == way[0] && IsWay(store, Digest(way[0]), way)
    ensures ReachesItself(store, way[0])
  {
    var cycle := way[..again + 1];
    WayUpTo(store, Digest(way[0]), way, again + 1);
    assert |cycle| > 1 && cycle[|cycle| - 1] == way[0];
  }

  lemma {:induction false} WayUpTo(store: Store, n: Node, way: seq<Hash>, i: nat)
    requires IsWay(store, n, way) && i <= |way|
    ensures IsWay(store, n, way[..i])
    decreases i
  {
    if i > 0 {
      WayUpTo(store, store[ByDigest(way[0])], way[1..], i - 1);
      assert way[..i][1..] == way[1..][..i - 1];
    }
  }

  /** The least depth that is enough. */
  ghost function LeastDepth(root: Node, store: Store, depth: nat): (least: nat)
    requires ResolveWithin(root, store, depth).Some?
    ensures ResolveWithin(root, store, least).Some?
    ensures forall less :: 0 <= less < least ==> ResolveWithin(root, store, less).None?
  {
    if depth == 0 || ResolveWithin(root, store, depth - 1).None? then
      NoLessIsEnough(root, store, depth);
      depth
    else LeastDepth(root, store, depth - 1)
  }

  lemma NoLessIsEnough(root: Node, store: Store, depth: nat)
    requires depth == 0 || ResolveWithin(root, store, depth - 1).None?
    ensures forall less :: 0 <= less < depth ==> ResolveWithin(root, store, less).None?
  {
    forall less | 0 <= less < depth
      ensures ResolveWithin(root, store, less).None?
    {
      if ResolveWithin(root, store, less).Some? {
        DeeperIsSame(root, store, less, depth - 1);
      }
    }
  }

  ghost function DepthOf(store: Store, hash: Hash): nat {
    if Resolve(Digest(hash), store).Some? then LeastDepth(Digest(hash), store, |store|) else 0
  }

  lemma {:induction false} LessDepthRanksBelow(store: Store, rank: Hash -> nat, n: Node, bound: nat)
    requires forall hash :: Shows(n, hash) ==> rank(hash) < bound
    ensures RanksBelow(rank, n, bound)
  {
    match n
    case Branch(children) =>
      forall i | i in children
        ensures RanksBelow(rank, children[i], bound)
      {
        LessDepthRanksBelow(store, rank, children[i], bound);
      }
    case Extension(_, child) => LessDepthRanksBelow(store, rank, child, bound);
    case Digest(hash) => assert Shows(n, hash);
    case _ =>
  }

  /** A store can be ranked if and only if no digest reaches itself; then every root can be resolved. */
  lemma RankedExactly(store: Store)
    ensures (exists rank :: Ranked(rank, store)) <==> forall hash :: !ReachesItself(store, hash)
    ensures (exists rank :: Ranked(rank, store)) ==> forall root :: Resolve(root, store).Some?
  {
    if rank :| Ranked(rank, store) {
      forall hash
        ensures !ReachesItself(store, hash)
      {
        RankedIsAcyclic(rank, store, hash);
      }
    }
    if forall hash :: !ReachesItself(store, hash) {
      forall root: Node
        ensures Resolve(root, store).Some?
      {
        AcyclicEnds(root, store);
        ResolveIsUnbounded(root, store);
      }
      DepthRanks(store);
    }
  }

  lemma DepthRanks(store: Store)
    requires forall root :: Resolve(root, store).Some?
    ensures exists rank :: Ranked(rank, store)
  {
    var rank := (hash: Hash) => DepthOf(store, hash);
    forall hash: Hash | ByDigest(hash) in store
      ensures RanksBelow(rank, store[ByDigest(hash)], rank(hash))
    {
      var n, depth := store[ByDigest(hash)], DepthOf(store, hash);
      forall h | Shows(n, h)
        ensures rank(h) < depth
      {
        ShownIsResolved(n, store, depth - 1, h);
      }
      LessDepthRanksBelow(store, rank, n, depth);
    }
    assert Ranked(rank, store);
  }

  /** A digest that is filed as a node leads back to itself, and no trie that shows it can be resolved. */
  lemma FiledDigestIsEndless(root: Node, store: Store, hash: Hash)
    requires ByDigest(hash) in store && store[ByDigest(hash)] == Digest(hash) && Shows(root, hash)
    ensures ReachesItself(store, hash) && Resolve(root, store).None?
  {
    var way := [hash, hash];
    assert way[1..] == [hash] && [hash][1..] == [];
    assert IsWay(store, Digest(hash), way) && IsWay(store, root, way);
    assert Repeats(way) by {
      assert way[0] == way[1];
    }
    EndsExactly(root, store);
    ResolveIsUnbounded(root, store);
  }
}
