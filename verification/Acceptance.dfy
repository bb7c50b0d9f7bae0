/** Which proofs the transition takes, what it makes of them, and which error the others are; for all input,
    honest or not. */
module Acceptance {
  import opened Basics
  import opened Trie
  import opened Encoding
  import opened Decoding
  import opened Resolution
  import opened Proofs
  import opened OrphanRecovery
  import opened Transition

  /** A proof from before the block is taken just when it is a chain of nodes; all its nodes are filed,
      and nothing else. */
  lemma FiledExactly(K: Keccak, proof: seq<Bytes>, store: Store)
    ensures var r := AfterFiling(K, proof, store);
      && (r.Filed? <==> IsChain(K, proof))
      && (r.Filed? ==> AreFiled(K, store, ParseProof(proof).nodes, r.store) && (r.root.Some? <==> proof != [])
                       && (proof != [] ==> Decode(proof[0]) == Ok(r.root.value)))
  {
    hide ReferenceOf, Decode, Join, FileAll, AreFiled, AllLinked, ParseProof;
    ParsesExactly(proof);
    if ParseProof(proof).Nodes? {
      var nodes := ParseProof(proof).nodes;
      FilesExactly(K, store, nodes);
      if nodes != [] {
        JoinIsCorrect(K, nodes, 0);
      } else {
        NothingIsLinked(K);
      }
    }
  }

  lemma NothingIsLinked(K: Keccak)
    ensures AllLinked(K, [], 0)
  {
  }

  /** A store that has grown by some nodes, each under its own reference. */
  ghost predicate Grown(K: Keccak, store: Store, nodes: iset<Node>, store': Store) {
    && (forall r :: r in store ==> r in store')
    && (forall n :: n in nodes ==> ReferenceOf(K, n) in store')
    && (forall r :: r in store' ==> (r in store && store'[r] == store[r]) || (store'[r] in nodes && ReferenceOf(K, store'[r]) == r))
  }

  lemma GrownTwice(K: Keccak, a: Store, nodes: iset<Node>, b: Store, more: iset<Node>, c: Store, all: iset<Node>)
    requires Grown(K, a, nodes, b) && Grown(K, b, more, c) && all == nodes + more
    ensures Grown(K, a, all, c)
  {
    hide ReferenceOf;
  }

  lemma NotGrown(K: Keccak, store: Store)
    ensures Grown(K, store, iset{}, store)
  {
  }

  /** The last node with a reference. */
  lemma {:induction false} SomeLast(K: Keccak, nodes: seq<Node>, r: Reference)
    ensures NoneHas(K, nodes, r) || exists i: nat :: LastWith(K, nodes, r, i)
  {
    hide ReferenceOf, NoneHas, LastWith;
    if nodes == [] {
      WithNone(K, r);
    } else {
      SomeLast(K, nodes[1..], r);
      WithFirst(K, nodes, r);
      if i: nat :| LastWith(K, nodes[1..], r, i) {
        assert LastWith(K, nodes, r, i + 1);
      } else if ReferenceOf(K, nodes[0]) == r {
        assert LastWith(K, nodes, r, 0);
      }
    }
  }

  lemma FiledIsGrown(K: Keccak, store: Store, nodes: seq<Node>, filed: Store, same: iset<Node>)
    requires AreFiled(K, store, nodes, filed) && forall n :: n in same <==> n in nodes
    ensures Grown(K, store, same, filed)
  {
    hide ReferenceOf;
    forall r
      ensures r in store ==> r in filed
      ensures r in filed ==> (r in store && filed[r] == store[r]) || (filed[r] in nodes && ReferenceOf(K, filed[r]) == r)
    {
      SomeLast(K, nodes, r);
      if i: nat :| LastWith(K, nodes, r, i) {
        assert filed[r] == nodes[i];
      }
    }
    forall n | n in nodes
      ensures ReferenceOf(K, n) in filed
    {
      SomeLast(K, nodes, ReferenceOf(K, n));
      var i: nat :| i < |nodes| && nodes[i] == n;
      assert !NoneHas(K, nodes, ReferenceOf(K, n));
    }
  }

  /** The nodes of a proof. */
  ghost function NodesIn(proof: seq<Bytes>): iset<Node> {
    iset n | ParseProof(proof).Nodes? && n in ParseProof(proof).nodes
  }

  /** The shortened versions of the last node of a proof that the key is not there. */
  ghost function ShortenedIn(K: Keccak, key: Bytes, proof: seq<Bytes>): iset<Node> {
    if SaysThat(K, proof, K(key), false) then ShorterThan(LastNode(proof)) else iset{}
  }

  ghost function ShorterThan(whole: Node): iset<Node> {
    iset n | IsShorter(n, whole)
  }

  lemma FilingGrows(K: Keccak, proof: seq<Bytes>, store: Store)
    ensures var r := AfterFiling(K, proof, store); r.Filed? ==> Grown(K, store, NodesIn(proof), r.store)
  {
    hide AfterFiling, AreFiled, ParseProof, Decode, Grown, IsChain;
    FiledExactly(K, proof, store);
    var r := AfterFiling(K, proof, store);
    if r.Filed? {
      IsParsed(K, proof);
      FiledIsGrown(K, store, ParseProof(proof).nodes, r.store, NodesIn(proof));
    }
  }

  lemma IsParsed(K: Keccak, proof: seq<Bytes>)
    requires IsChain(K, proof)
    ensures ParseProof(proof).Nodes?
  {
  }

  lemma OrphansGrow(K: Keccak, key: Bytes, proof: seq<Bytes>, store: Store)
    ensures var r := AfterOrphans(K, key, proof, store); r.Added? ==> Grown(K, store, ShortenedIn(K, key, proof), r.store)
  {
    hide AfterOrphans, AreFiled, ParseProof, LastNode, Decode, Grown, IsChain, SaysThat, IsShorter;
    OrphansExactly(K, key, proof, store);
    var r := AfterOrphans(K, key, proof, store);
    if r.Added? {
      SaysOne(K, proof, K(key));
      if SaysThat(K, proof, K(key), false) {
        var shortened :| AreShortened(shortened, LastNode(proof)) && AreFiled(K, store, shortened, r.store);
        FiledIsGrown(K, store, shortened, r.store, ShortenedIn(K, key, proof));
      } else {
        NotGrown(K, store);
      }
    }
  }

  lemma SaysOne(K: Keccak, proof: seq<Bytes>, key: Hash)
    ensures SaysThat(K, proof, key, false) ==> proof != [] && !SaysThat(K, proof, key, true)
  {
  }

  /** A proof from after the block that can be used: nothing, or a chain of nodes that says whether the key
      is there. */
  ghost predicate IsUsable(K: Keccak, key: Bytes, proof: seq<Bytes>) {
    proof == [] || SaysThat(K, proof, K(key), true) || SaysThat(K, proof, K(key), false)
  }

  /** What a proof that cannot be used is. */
  lemma UsedExactly(K: Keccak, key: Bytes, proof: seq<Bytes>, store: Store)
    ensures AfterOrphans(K, key, proof, store).Added? <==> IsUsable(K, key, proof)
    ensures AfterOrphans(K, key, proof, store) == NotDecoded <==> ParseProof(proof).Unreadable?
  {
    hide AfterOrphans, FilesShortened;
    OrphansExactly(K, key, proof, store);
  }

  /** The storage proofs of an account are taken just when all of them are chains, and usable after the
      block; the first one that is not says what kind of failure it is. Then the trie grows from
      the first node of the last proof, with the nodes of all proofs, and its hash decides. */
  lemma StorageExactly(K: Keccak, before: AccountProof, after: AccountProof)
    ensures var r := StorageOutcome(K, before, after);
      if before.storageProofs == [] then r == Storage(NodeFromDigest(before.storageRoot))
      else if exists p :: p in before.storageProofs && !IsChain(K, p.proof) then r == StoragePanic
      else if exists i: nat :: FirstUnusable(K, after.storageProofs, i) then
        exists i: nat :: FirstUnusable(K, after.storageProofs, i)
                         && r == if ParseProof(after.storageProofs[i].proof).Unreadable? then StorageDecoding else StoragePanic
      else exists store :: Grown(K, map[], SlotNodes(before.storageProofs) + SlotOrphans(K, after.storageProofs), store)
                           && r == Checked(K, LastRoot(before.storageProofs, Null), store, before.storageRoot)
  {
    hide ReferenceOf, Decode, AfterFiling, AfterOrphans, ParseProof, IsChain, IsUsable, Checked, NodeFromDigest, FirstUnusable,
      LastRoot, Grown, SlotNodes, SlotOrphans;
    if before.storageProofs != [] {
      SlotsFiled(K, before.storageProofs, Null, map[]);
      var r := AfterSlots(K, before.storageProofs, Null, map[]);
      if r.Filed? {
        SlotsUsed(K, after.storageProofs, r.store);
        var added := AfterSlotOrphans(K, after.storageProofs, r.store);
        if added.Added? {
          GrownTwice(K, map[], SlotNodes(before.storageProofs), r.store, SlotOrphans(K, after.storageProofs), added.store,
                     SlotNodes(before.storageProofs) + SlotOrphans(K, after.storageProofs));
        }
      }
    }
  }

  /** The nodes of all proofs of slots. */
  ghost function SlotNodes(proofs: seq<StorageProof>): iset<Node> {
    iset p, n | p in proofs && n in NodesIn(p.proof) :: n
  }

  /** The shortened nodes of all proofs of slots. */
  ghost function SlotOrphans(K: Keccak, proofs: seq<StorageProof>): iset<Node> {
    iset p, n | p in proofs && n in ShortenedIn(K, p.key, p.proof) :: n
  }

  ghost predicate FirstUnusable(K: Keccak, proofs: seq<StorageProof>, i: nat) {
    && i < |proofs| && !IsUsable(K, proofs[i].key, proofs[i].proof)
    && forall j :: 0 <= j < i ==> IsUsable(K, proofs[j].key, proofs[j].proof)
  }

  /** The first node of the last proof that is not empty. */
  function LastRoot(proofs: seq<StorageProof>, root: Node): Node {
    if proofs == [] then root else
    var last := proofs[|proofs| - 1].proof;
    if last == [] || !Decode(last[0]).Ok? then LastRoot(proofs[..|proofs| - 1], root) else Decode(last[0]).node
  }

  lemma {:induction false} LastRootFromFirst(proofs: seq<StorageProof>, root: Node)
    requires proofs != []
    ensures LastRoot(proofs, root) == LastRoot(proofs[1..], LastRoot(proofs[..1], root))
    decreases |proofs|
  {
    hide Decode;
    if |proofs| > 1 {
      var init := proofs[..|proofs| - 1];
      LastRootFromFirst(init, root);
      assert init[..1] == proofs[..1] && proofs[1..][..|proofs| - 2] == init[1..];
      assert proofs[1..][|proofs| - 2] == proofs[|proofs| - 1];
    } else {
      assert proofs[..1] == proofs && proofs[1..] == [];
    }
  }

  lemma {:induction false} SlotsFiled(K: Keccak, proofs: seq<StorageProof>, root: Node, store: Store)
    ensures var r := AfterSlots(K, proofs, root, store);
      && (r.Filed? <==> forall p :: p in proofs ==> IsChain(K, p.proof))
      && (r.Filed? ==> r.root == Some(LastRoot(proofs, root)) && Grown(K, store, SlotNodes(proofs), r.store))
    decreases |proofs|
  {
    hide Decode, AfterFiling, IsChain, Grown, NodesIn, AreFiled;
    if proofs == [] {
      NotGrown(K, store);
      assert SlotNodes(proofs) == iset{};
    } else {
      assert proofs == [proofs[0]] + proofs[1..];
      FiledExactly(K, proofs[0].proof, store);
      var r := AfterFiling(K, proofs[0].proof, store);
      if r.Filed? {
        var next := if r.root.Some? then r.root.value else root;
        SlotsFiled(K, proofs[1..], next, r.store);
        FilingGrows(K, proofs[0].proof, store);
        var all := AfterSlots(K, proofs[1..], next, r.store);
        if all.Filed? {
          assert SlotNodes(proofs) == NodesIn(proofs[0].proof) + SlotNodes(proofs[1..]);
          GrownTwice(K, store, NodesIn(proofs[0].proof), r.store, SlotNodes(proofs[1..]), all.store, SlotNodes(proofs));
        }
        LastRootFromFirst(proofs, root);
        assert LastRoot(proofs[..1], root) == next by {
          assert proofs[..1][..0] == [] && proofs[..1][0] == proofs[0];
        }
      }
    }
  }

  lemma {:induction false} SlotsUsed(K: Keccak, proofs: seq<StorageProof>, store: Store)
    ensures var r := AfterSlotOrphans(K, proofs, store);
      && (r.Added? <==> !exists i: nat :: FirstUnusable(K, proofs, i))
      && (!r.Added? ==> exists i: nat :: FirstUnusable(K, proofs, i)
                                         && (r == NotDecoded <==> ParseProof(proofs[i].proof).Unreadable?))
      && (r.Added? ==> Grown(K, store, SlotOrphans(K, proofs), r.store))
    decreases |proofs|
  {
    hide AfterOrphans, ParseProof, IsUsable, Grown, ShortenedIn;
    if proofs == [] {
      NoneUnusable(K);
      NotGrown(K, store);
      assert SlotOrphans(K, proofs) == iset{};
    } else {
      UsedExactly(K, proofs[0].key, proofs[0].proof, store);
      FirstOrLater(K, proofs);
      var r := AfterOrphans(K, proofs[0].key, proofs[0].proof, store);
      if r.Added? {
        SlotsUsed(K, proofs[1..], r.store);
        OrphansGrow(K, proofs[0].key, proofs[0].proof, store);
        var all := AfterSlotOrphans(K, proofs[1..], r.store);
        if all.Added? {
          assert proofs == [proofs[0]] + proofs[1..];
          var first := ShortenedIn(K, proofs[0].key, proofs[0].proof);
          assert SlotOrphans(K, proofs) == first + SlotOrphans(K, proofs[1..]);
          GrownTwice(K, store, first, r.store, SlotOrphans(K, proofs[1..]), all.store, SlotOrphans(K, proofs));
        } else {
          var i: nat :| FirstUnusable(K, proofs[1..], i)
            && (all == NotDecoded <==> ParseProof(proofs[1..][i].proof).Unreadable?);
          assert FirstUnusable(K, proofs, i + 1);
        }
      } else {
        assert FirstUnusable(K, proofs, 0);
      }
    }
  }

  lemma NoneUnusable(K: Keccak)
    ensures forall i: nat :: !FirstUnusable(K, [], i)
  {
  }

  lemma FirstOrLater(K: Keccak, proofs: seq<StorageProof>)
    requires proofs != []
    ensures FirstUnusable(K, proofs, 0) <==> !IsUsable(K, proofs[0].key, proofs[0].proof)
    ensures forall i: nat :: i > 0 && FirstUnusable(K, proofs, i) ==> FirstUnusable(K, proofs[1..], i - 1)
    ensures IsUsable(K, proofs[0].key, proofs[0].proof) ==> forall i: nat :: FirstUnusable(K, proofs[1..], i) ==>
      FirstUnusable(K, proofs, i + 1) && proofs[1..][i] == proofs[i + 1]
  {
    hide IsUsable;
    var rest := proofs[1..];
    assert forall i :: 0 <= i < |rest| ==> rest[i] == proofs[i + 1];
    forall i: nat | i > 0 && FirstUnusable(K, proofs, i)
      ensures FirstUnusable(K, rest, i - 1)
    {
    }
    forall i: nat | IsUsable(K, proofs[0].key, proofs[0].proof) && FirstUnusable(K, rest, i)
      ensures FirstUnusable(K, proofs, i + 1)
    {
      assert forall j :: 0 < j < i + 1 ==> proofs[j] == rest[j - 1];
    }
  }

  /** The account gets as far as its storage trie. */
  ghost predicate IsTaken(K: Keccak, before: AccountProofs, after: AccountProofs, a: Address) {
    && a in before && a in after && IsChain(K, before[a].proof) && IsUsable(K, a, after[a].proof)
    && StorageOutcome(K, before[a], after[a]).Storage?
  }

  /** Why an account is not taken. */
  ghost predicate IsReason(K: Keccak, before: AccountProofs, after: AccountProofs, a: Address, error: Transitioned)
    requires a in before
  {
    if !IsChain(K, before[a].proof) || a !in after then error == Panic
    else if ParseProof(after[a].proof).Unreadable? then error == DecodingError
    else if !IsUsable(K, a, after[a].proof) then error == Panic
    else
      match StorageOutcome(K, before[a], after[a])
      case Storage(_) => false
      case StoragePanic => error == Panic
      case StorageDecoding => error == DecodingError
      case StorageEndless => error == Endless
      case WrongRoot(found) =>
        error.MismatchedStorageRoot? && error.address == a && error.found == found && error.expected == before[a].storageRoot
  }

  /** Building gets to the state trie just when every account is taken, whatever the order; otherwise the
      first account in the order that is not taken says what the error is. */
  lemma {:induction false} BuildsExactly(K: Keccak, before: AccountProofs, after: AccountProofs, order: seq<Address>)
    requires forall a :: a in order ==> a in before
    ensures var b := AfterAccounts(K, before, after, order);
      && (b.Building? <==> forall a :: a in order ==> IsTaken(K, before, after, a))
      && (b.Stopped? ==> exists i :: 0 <= i < |order| && IsReason(K, before, after, order[i], b.error)
                                     && forall j :: 0 <= j < i ==> IsTaken(K, before, after, order[j]))
    decreases |order|
  {
    hide AfterAccount, IsTaken, IsReason;
    if order != [] {
      var init, last := order[..|order| - 1], order[|order| - 1];
      assert order == init + [last];
      BuildsExactly(K, before, after, init);
      var b := AfterAccounts(K, before, after, init);
      if b.Building? {
        TakenExactly(K, before, after, last, b);
        assert forall j :: 0 <= j < |init| ==> order[j] in init;
      } else {
        StoppedStays(K, before, after, last, b);
        assert forall j :: 0 <= j < |init| ==> order[j] == init[j];
        var i :| 0 <= i < |init| && IsReason(K, before, after, init[i], b.error)
          && forall j :: 0 <= j < i ==> IsTaken(K, before, after, init[j]);
        assert IsReason(K, before, after, order[i], b.error);
      }
    }
  }

  lemma TakenExactly(K: Keccak, before: AccountProofs, after: AccountProofs, a: Address, b: Building)
    requires a in before && b.Building?
    ensures var r := AfterAccount(K, before, after, a, b);
      && (r.Building? <==> IsTaken(K, before, after, a))
      && (r.Stopped? ==> IsReason(K, before, after, a, r.error))
  {
    hide AfterFiling, AfterOrphans, StorageOutcome, IsChain, IsUsable, ParseProof, AreFiled;
    FiledExactly(K, before[a].proof, b.store);
    var filed := AfterFiling(K, before[a].proof, b.store);
    if filed.Filed? && a in after {
      UsedExactly(K, a, after[a].proof, filed.store);
    }
  }

  /** The nodes that an account brings to the state trie. */
  ghost function NodesOf(K: Keccak, before: AccountProofs, after: AccountProofs, a: Address): iset<Node> {
    if a in before && a in after then NodesIn(before[a].proof) + ShortenedIn(K, a, after[a].proof) else iset{}
  }

  ghost function AccountNodes(K: Keccak, before: AccountProofs, after: AccountProofs, order: seq<Address>): iset<Node> {
    iset a, n | a in order && n in NodesOf(K, before, after, a) :: n
  }

  /** The first node of the last proof that is not empty. */
  function LastAccountRoot(before: AccountProofs, order: seq<Address>): Node {
    if order == [] then Null else
    var last := order[|order| - 1];
    if last in before && before[last].proof != [] && Decode(before[last].proof[0]).Ok? then Decode(before[last].proof[0]).node
    else LastAccountRoot(before, order[..|order| - 1])
  }

  /** What the state trie grows from: the first node of the last account's proof, the nodes of all accounts and
      the shortened ones of all that are gone after the block. */
  lemma {:induction false} BuiltFrom(K: Keccak, before: AccountProofs, after: AccountProofs, order: seq<Address>)
    requires forall a :: a in order ==> a in before
    ensures var b := AfterAccounts(K, before, after, order);
      b.Building? ==> b.root == LastAccountRoot(before, order) && Grown(K, map[], AccountNodes(K, before, after, order), b.store)
    decreases |order|
  {
    hide AfterAccount, Grown, NodesOf, Decode;
    if order == [] {
      NotGrown(K, map[]);
      assert AccountNodes(K, before, after, order) == iset{};
    } else {
      var init, last := order[..|order| - 1], order[|order| - 1];
      assert order == init + [last];
      BuiltFrom(K, before, after, init);
      var b := AfterAccounts(K, before, after, init);
      if b.Building? {
        AccountGrows(K, before, after, last, b);
        var r := AfterAccount(K, before, after, last, b);
        if r.Building? {
          assert AccountNodes(K, before, after, order) == AccountNodes(K, before, after, init) + NodesOf(K, before, after, last);
          GrownTwice(K, map[], AccountNodes(K, before, after, init), b.store, NodesOf(K, before, after, last), r.store,
                     AccountNodes(K, before, after, order));
        }
      } else {
        StoppedStays(K, before, after, last, b);
      }
    }
  }

  lemma AccountGrows(K: Keccak, before: AccountProofs, after: AccountProofs, a: Address, b: Building)
    requires a in before && b.Building?
    ensures var r := AfterAccount(K, before, after, a, b);
      r.Building? ==>
        && Grown(K, b.store, NodesOf(K, before, after, a), r.store)
        && (if before[a].proof == [] then r.root == b.root else Decode(before[a].proof[0]) == Ok(r.root))
  {
    hide AfterFiling, AfterOrphans, StorageOutcome, Grown, AreFiled, NodesIn, ShortenedIn, IsChain, Decode, ParseProof;
    FiledExactly(K, before[a].proof, b.store);
    FilingGrows(K, before[a].proof, b.store);
    var filed := AfterFiling(K, before[a].proof, b.store);
    if filed.Filed? && a in after {
      OrphansGrow(K, a, after[a].proof, filed.store);
      var r := AfterAccount(K, before, after, a, b);
      if r.Building? {
        GrownTwice(K, b.store, NodesIn(before[a].proof), filed.store, ShortenedIn(K, a, after[a].proof), r.store,
                   NodesOf(K, before, after, a));
      }
    }
  }

  /** Whether an error stops the building does not depend on the order of the accounts. */
  lemma StopsInAnyOrder(K: Keccak, before: AccountProofs, after: AccountProofs, order: seq<Address>, order': seq<Address>)
    requires IsOrder(order, before.Keys) && IsOrder(order', before.Keys)
    ensures AfterAccounts(K, before, after, order).Stopped? <==> AfterAccounts(K, before, after, order').Stopped?
  {
    hide AfterAccounts, IsTaken;
    BuildsExactly(K, before, after, order);
    BuildsExactly(K, before, after, order');
  }
}
