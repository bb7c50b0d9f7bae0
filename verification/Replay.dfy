/** Runs of operations on the trie as the program keeps it. */
module Replay {
  import opened Basics
  import opened Trie
  import opened NormalForm
  import opened DeleteCorrect
  import opened Encoding
  import opened History
  import opened MptNodes

  /** Plays operations on an empty trie and takes the root hash after each one, so that caches are
      filled and reset all the time: the hashes are those of the tries that the operations describe,
      computed from scratch. */
  method Play(K: Keccak, ops: seq<Op>) returns (trie: MptNode, roots: seq<Hash>)
    requires ValidOps(ops)
    ensures trie.Valid(K) && fresh(trie.Repr) && trie.model == Run(ops)
    ensures |roots| == |ops| && forall i :: 0 <= i < |ops| ==> roots[i] == HashOf(K, Run(ops[..i + 1]))
  {
    hide Insert, Delete, HashOf;
    trie := new MptNode.Default(K);
    roots := [];
    for i := 0 to |ops|
      invariant trie.Valid(K) && fresh(trie.Repr) && trie.model == Run(ops[..i])
      invariant |roots| == i && forall j :: 0 <= j < i ==> roots[j] == HashOf(K, Run(ops[..j + 1]))
    {
      RunRefines(ops[..i]);
      PlayOp(K, trie, ops[i]);
      assert ops[..i + 1][..i] == ops[..i];
      var root := trie.GetHash(K);
      roots := roots + [root];
    }
    assert ops[..|ops|] == ops;
  }

  method PlayOp(ghost K: Keccak, trie: MptNode, op: Op)
    requires trie.Valid(K) && Normal(trie.model)
    modifies trie.Repr
    ensures trie.Valid(K) && fresh(trie.Repr - old(trie.Repr))
    ensures trie.model == Step(old(trie.model), op)
  {
    hide Insert, Delete;
    var r;
    if op.Put? {
      if Insert(trie.model, op.key, op.value).Done? {
        InsertGet(trie.model, op.key, op.value, []);
      }
      r := trie.InsertInternal(K, op.key, op.value);
    } else {
      DeleteKeepsForm(trie.model, op.key);
      if Delete(trie.model, op.key).Done? {
        DeleteGet(trie.model, op.key, []);
      }
      r := trie.DeleteInternal(K, op.key);
    }
  }

  /** Two runs that end in the same map end in the same root hash. */
  lemma SameMapSameRoot(K: Keccak, ops: seq<Op>, ops': seq<Op>)
    requires ValidOps(ops) && ValidOps(ops') && RunMap(ops) == RunMap(ops')
    ensures HashOf(K, Run(ops)) == HashOf(K, Run(ops'))
  {
    HistoryDoesNotMatter(ops, ops');
  }
}
