/** The main results in the terms of the Ethereum Yellow Paper: from an honest input to the root of the world
    that the block leaves. */
module Blocks {
  import opened Basics
  import opened Encoding
  import opened EthereumStates
  import opened Transition
  import opened HonestTransition
  import opened HonestBlock
  import opened HonestExecution
  import opened Worlds
  import Witness
  import Trie
  import Paper = YellowPaper

  /** From the proofs of an honest node: the state that is rebuilt from them has the root of the world
      before the block, and its update ends with the root of the world after it. */
  method RootFromProofs(K: Keccak, state: EthereumState, post: PostState, ghost tries: seq<Trie.Node>,
                        ghost full: FullState, ghost next: FullState, ghost updated: FullState,
                        ghost before: AccountProofs, ghost after: AccountProofs, ghost order: seq<Address>, ghost w: Paper.World)
    returns (ok: bool, root: Hash)
    requires ToldApart(K, tries) && Honest(K, tries, full, next, before, after) && StateFull(full)
    requires HonestBlock.ProvesChanges(K, before, after, post) && IsNext(K, full, post, next, updated)
    requires before != map[] && IsOrder(order, before.Keys)
    requires IsWorld(K, full, w) && StoragesAreThere(full, w, post)
    requires state.Valid(K)
    requires var r := TransitionOutcome(K, Paper.WorldRoot(K, w), before, after, order);
      r.State? ==> state.view == EthereumStates.State(r.trie, r.storages)
    modifies state, state.Repr
    ensures ok && root == Paper.WorldRoot(K, WorldAfter(K, w, post))
  {
    hide *;
    RootOfWorld(K, full, w);
    ok, root := UpdateRebuilt(K, state, post, tries, full, next, updated, before, after, order);
    NextRoot(K, full, w, post, next, updated);
  }

  lemma NextRoot(K: Keccak, full: FullState, w: Paper.World, post: PostState, next: FullState, updated: FullState)
    requires IsWorld(K, full, w) && StoragesAreThere(full, w, post) && IsNext(K, full, post, next, updated)
    ensures HashOf(K, next.trie) == Paper.WorldRoot(K, WorldAfter(K, w, post))
  {
    hide HashOf, IsWorld, StoragesAreThere, Paper.WorldRoot, WorldAfter, IsUpdated, StateFull;
    UpdatedWorld(K, full, w, post, updated);
  }

  /** From an honest witness. */
  method RootFromWitness(K: Keccak, state: EthereumState, post: PostState, ghost tries: seq<Trie.Node>, ghost encodings: seq<Bytes>,
                         ghost full: FullState, ghost updated: FullState, ghost w: Paper.World)
    returns (ok: bool, root: Hash)
    requires AreStates(K, tries, full, post, updated) && HonestState(K, tries, encodings, full)
    requires IsEnough(K, encodings, full, post, updated) && state.Valid(K)
    requires IsWorld(K, full, w) && StoragesAreThere(full, w, post)
    requires var o := Witness.BuildOutcome(K, encodings, Paper.WorldRoot(K, w));
      o.Built? ==> state.view == EthereumStates.State(o.trie, o.storages)
    modifies state, state.Repr
    ensures ok && root == Paper.WorldRoot(K, WorldAfter(K, w, post))
  {
    hide *;
    RootOfWorld(K, full, w);
    ok, root := UpdateBuilt(K, state, post, tries, encodings, full, updated);
    UpdatedRoot(K, tries, full, w, post, updated);
  }

  lemma UpdatedRoot(K: Keccak, tries: seq<Trie.Node>, full: FullState, w: Paper.World, post: PostState, updated: FullState)
    requires AreStates(K, tries, full, post, updated) && IsWorld(K, full, w) && StoragesAreThere(full, w, post)
    ensures HashOf(K, updated.trie) == Paper.WorldRoot(K, WorldAfter(K, w, post))
  {
    hide HashOf, IsWorld, StoragesAreThere, Paper.WorldRoot, WorldAfter, IsUpdated, StateFull, ToldApart;
    UpdatedWorld(K, full, w, post, updated);
  }
}
