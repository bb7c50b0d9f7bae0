/** Deletion removes one key, restores the normal form and does not panic. */
module DeleteCorrect {
  import opened Basics
  import opened HexPrefix
  import opened Trie
  import opened NormalForm
  import opened InsertCorrect

  /** Turning a branch with a single child into a shorter node changes no lookup. */
  lemma CollapseGet(i: nibble, orphan: Node, k: Nibbles)
    requires !orphan.Null?
    ensures Get(Collapse(i, orphan).node, k) == Get(Branch(map[i := orphan]), k)
  {
    hide PrefixNibs, ToEncodedPath;
    if k != [] {
      assert k == [k[0]] + k[1..];
      RelatedAfter([i], if orphan.Leaf? || orphan.Extension? then PrefixNibs(orphan.path) else [], k[1..]);
      if orphan.Extension? {
        PrefixByParts([i] + PrefixNibs(orphan.path), k, 1);
      }
    }
  }

  lemma ShrinkGet(children: Children, k: Nibbles)
    requires Shrink(children).Done?
    ensures Get(Shrink(children).node, k) == Get(Branch(children), k)
  {
    hide PrefixNibs, ToEncodedPath;
    var first := NextChild(children, 0);
    if NextChild(children, first + 1) == 16 {
      var i := first as nibble;
      forall j: nibble | j in children
        ensures j == i
      {
        assert !(first + 1 <= j as int < 16);
      }
      assert children == map[i := children[i]];
      CollapseGet(i, children[i], k);
    }
  }

  /** Merging an extension with its child changes no lookup. */
  lemma MergeGet(path: Path, child: Node, k: Nibbles)
    ensures Get(Merge(path, child), k) == Get(Extension(path, child), k)
  {
    hide PrefixNibs, ToEncodedPath;
    var nibs := PrefixNibs(path);
    if child.Leaf? || child.Extension? {
      var tail := PrefixNibs(child.path);
      if nibs <= k {
        assert k == nibs + k[|nibs|..];
        RelatedAfter(nibs, tail, k[|nibs|..]);
      }
      PrefixByParts(nibs + tail, k, |nibs|);
      assert (nibs + tail)[..|nibs|] == nibs && (nibs + tail)[|nibs|..] == tail;
    }
  }

  /** Deletion removes exactly one key, in every trie, and its flag tells whether it was there. */
  lemma {:induction false} DeleteGet(n: Node, key: Nibbles, k: Nibbles)
    requires Delete(n, key).Done?
    ensures var r := Delete(n, key);
      && Get(r.node, k) == (if k == key then Found(None) else Get(n, k))
      && r.changed == Present(n, key)
      && (!r.changed ==> r.node == n && Get(n, key) == Found(None))
    decreases n, 1
  {
    hide PrefixNibs, ToEncodedPath;
    match n
    case Null =>
    case Branch(children) => DeleteGetBranch(n, key, k);
    case Leaf(path, _) =>
    case Extension(path, child) => DeleteGetExtension(n, key, k);
  }

  lemma {:induction false} DeleteGetBranch(n: Node, key: Nibbles, k: Nibbles)
    requires n.Branch? && Delete(n, key).Done?
    ensures var r := Delete(n, key);
      && Get(r.node, k) == (if k == key then Found(None) else Get(n, k))
      && r.changed == Present(n, key)
      && (!r.changed ==> r.node == n && Get(n, key) == Found(None))
    decreases n, 0
  {
    hide PrefixNibs, ToEncodedPath, Shrink;
    if k != [] {
      EqualByParts(key, k, 0);
    }
    var i := key[0];
    if i in n.children {
      DeleteGet(n.children[i], key[1..], if k == [] then [] else k[1..]);
      var r := Delete(n.children[i], key[1..]);
      if r.changed {
        var rest := if r.node.Null? then n.children - {i} else n.children[i := r.node];
        ShrinkGet(rest, k);
      }
    }
  }

  lemma {:induction false} DeleteGetExtension(n: Node, key: Nibbles, k: Nibbles)
    requires n.Extension? && Delete(n, key).Done?
    ensures var r := Delete(n, key);
      && Get(r.node, k) == (if k == key then Found(None) else Get(n, k))
      && r.changed == Present(n, key)
      && (!r.changed ==> r.node == n && Get(n, key) == Found(None))
    decreases n, 0
  {
    hide PrefixNibs, ToEncodedPath, Merge;
    var nibs := PrefixNibs(n.path);
    if nibs <= key {
      assert key == nibs + key[|nibs|..];
      var tail := if nibs <= k then k[|nibs|..] else [];
      DeleteGet(n.child, key[|nibs|..], tail);
      if nibs <= k {
        assert k == nibs + tail;
      }
      MergeGet(n.path, Delete(n.child, key[|nibs|..]).node, k);
    }
  }

  /** A branch that lost or changed a child is again in normal form. */
  lemma ShrinkKeepsForm(children: Children)
    requires children.Keys != {} && forall i :: i in children ==> Proper(children[i])
    ensures Shrink(children).Done? && Proper(Shrink(children).node)
    ensures (forall i :: i in children ==> DigestFree(children[i])) ==> DigestFree(Shrink(children).node)
  {
    hide PrefixNibs, ToEncodedPath, Canonical;
    var some :| some in children;
    var first := NextChild(children, 0);
    assert first <= some as int;
    var second := NextChild(children, first + 1);
    if second == 16 {
      var orphan := children[first as nibble];
      assert Proper(orphan);
      CollapseKeepsForm(first as nibble, orphan);
    } else {
      assert first as nibble in children && second as nibble in children;
    }
  }

  lemma CollapseKeepsForm(i: nibble, orphan: Node)
    requires Proper(orphan)
    ensures Collapse(i, orphan).Done? && Proper(Collapse(i, orphan).node)
    ensures DigestFree(orphan) ==> DigestFree(Collapse(i, orphan).node)
  {
    hide PrefixNibs, ToEncodedPath;
  }

  lemma MergeKeepsForm(path: Path, child: Node)
    requires Canonical(path, false) && PrefixNibs(path) != [] && Proper(child)
    ensures Proper(Merge(path, child)) && (DigestFree(child) ==> DigestFree(Merge(path, child)))
  {
    hide PrefixNibs, ToEncodedPath;
  }

  /** Deletion never panics and restores the normal form, with or without unresolved parts. */
  lemma {:induction false} DeleteKeepsForm(n: Node, key: Nibbles)
    requires WellFormed(n)
    ensures var r := Delete(n, key);
      && !r.Panicked?
      && (r.Done? ==> WellFormed(r.node) && (DigestFree(n) ==> DigestFree(r.node)))
      && (r.Done? && !n.Null? && !n.Leaf? ==> !r.node.Null?)
      && (r.Failed? && DigestFree(n) ==> r.error == ValueInBranch)
  {
    hide PrefixNibs, ToEncodedPath, Canonical, Shrink, Merge;
    match n
    case Null =>
    case Branch(children) =>
      if key != [] && key[0] in children {
        var i := key[0];
        DeleteKeepsForm(children[i], key[1..]);
        var r := Delete(children[i], key[1..]);
        if r.Done? && r.changed {
          var rest := if r.node.Null? then children - {i} else children[i := r.node];
          var x, y :| x in children && y in children && x != y;
          assert x in rest || y in rest;
          ShrinkKeepsForm(rest);
          ShrinkNotNull(rest);
        }
      }
    case Leaf(path, value) =>
    case Extension(path, child) =>
      var nibs := PrefixNibs(path);
      if nibs <= key {
        DeleteKeepsForm(child, key[|nibs|..]);
        var r := Delete(child, key[|nibs|..]);
        if r.Done? && r.changed {
          MergeKeepsForm(path, r.node);
        }
      }
    case Digest(_) =>
  }

  lemma ShrinkNotNull(children: Children)
    ensures Shrink(children).Done? ==> !Shrink(children).node.Null?
  {
    hide PrefixNibs, ToEncodedPath;
  }

  /** Two keys of the trie fork right after `key`. */
  ghost predicate ForksAt(n: Node, key: Nibbles) {
    exists a, b :: Present(n, a) && Present(n, b) && ForkAfter(key, a, b)
  }

  predicate ForkAfter(key: Nibbles, a: Nibbles, b: Nibbles) {
    key < a && key < b && a[|key|] != b[|key|]
  }

  /** A branch holds two keys that differ in their first nibble. */
  lemma {:induction false} TwoKeys(n: Node) returns (a: Nibbles, b: Nibbles)
    requires n.Branch? && Proper(n) && DigestFree(n)
    ensures Present(n, a) && Present(n, b) && ForkAfter([], a, b)
  {
    hide PrefixNibs, ToEncodedPath, Canonical;
    var i, j :| i in n.children && j in n.children && i != j;
    var x := SomeKey(n.children[i]);
    var y := SomeKey(n.children[j]);
    GetBranch(n.children, i, x);
    GetBranch(n.children, j, y);
    a, b := [i] + x, [j] + y;
  }

  lemma ForkAfterPrefix(prefix: Nibbles, key: Nibbles, a: Nibbles, b: Nibbles)
    ensures ForkAfter(prefix + key, prefix + a, prefix + b) <==> ForkAfter(key, a, b)
  {
    RelatedAfter(prefix, key, a);
    RelatedAfter(prefix, key, b);
    assert key < a ==> (prefix + a)[|prefix + key|] == a[|key|];
    assert key < b ==> (prefix + b)[|prefix + key|] == b[|key|];
    if prefix + key < prefix + a {
      assert key == (prefix + key)[|prefix|..] && a == (prefix + a)[|prefix|..];
      assert key < a;
    }
    if prefix + key < prefix + b {
      assert key == (prefix + key)[|prefix|..] && b == (prefix + b)[|prefix|..];
      assert key < b;
    }
  }

  /** A failing deletion has reached a branch: two keys fork there. */
  lemma {:induction false} FailureForks(n: Node, key: Nibbles) returns (a: Nibbles, b: Nibbles)
    requires Normal(n) && Delete(n, key).Failed?
    ensures Present(n, a) && Present(n, b) && ForkAfter(key, a, b)
  {
    hide PrefixNibs, ToEncodedPath, Canonical, Merge, Shrink;
    match n
    case Branch(children) =>
      if key == [] {
        a, b := TwoKeys(n);
      } else {
        var i := key[0];
        assert key == [i] + key[1..];
        var x, y := FailureForks(children[i], key[1..]);
        GetBranch(children, i, x);
        GetBranch(children, i, y);
        ForkAfterPrefix([i], key[1..], x, y);
        a, b := [i] + x, [i] + y;
      }
    case Extension(path, child) =>
      var nibs := PrefixNibs(path);
      var x, y := FailureForks(child, key[|nibs|..]);
      assert key == nibs + key[|nibs|..];
      GetExtension(path, child, x);
      GetExtension(path, child, y);
      ForkAfterPrefix(nibs, key[|nibs|..], x, y);
      a, b := nibs + x, nibs + y;
  }

  /** Where two keys fork there is a branch, and deletion refuses a key that ends there. */
  lemma {:induction false} ForkFails(n: Node, key: Nibbles, a: Nibbles, b: Nibbles)
    requires Normal(n) && Present(n, a) && Present(n, b) && ForkAfter(key, a, b)
    ensures Delete(n, key).Failed?
  {
    hide PrefixNibs, ToEncodedPath, Canonical, Merge;
    match n
    case Branch(children) =>
      if key != [] {
        var i := key[0];
        assert key == [i] + key[1..] && a == [i] + a[1..] && b == [i] + b[1..];
        ForkAfterPrefix([i], key[1..], a[1..], b[1..]);
        ForkFails(children[i], key[1..], a[1..], b[1..]);
      }
    case Leaf(_, _) =>
    case Extension(path, child) =>
      var nibs := PrefixNibs(path);
      var m := |nibs|;
      assert a == nibs + a[m..] && b == nibs + b[m..];
      if m <= |key| {
        assert nibs <= key;
        assert key == nibs + key[m..];
        ForkAfterPrefix(nibs, key[m..], a[m..], b[m..]);
        ForkFails(child, key[m..], a[m..], b[m..]);
      }
  }

  /** Deletion on a trie in normal form: it fails exactly when two keys fork after `key`; otherwise
      it removes just the one key, keeps the normal form, and tells whether the key was there. */
  lemma DeleteIsCorrect(n: Node, key: Nibbles)
    requires Normal(n)
    ensures ForksAt(n, key) <==> Delete(n, key) == Failed(ValueInBranch)
    ensures !ForksAt(n, key) <==> Delete(n, key).Done?
    ensures var r := Delete(n, key);
      r.Done? ==>
        && Normal(r.node)
        && (forall k :: Get(r.node, k) == if k == key then Found(None) else Get(n, k))
        && (r.changed <==> Present(n, key))
        && (!r.changed ==> r.node == n)
  {
    DeleteKeepsForm(n, key);
    var r := Delete(n, key);
    if r.Failed? {
      var a, b := FailureForks(n, key);
    } else {
      forall k
        ensures Get(r.node, k) == if k == key then Found(None) else Get(n, k)
      {
        DeleteGet(n, key, k);
      }
      DeleteGet(n, key, key);
    }
    if a, b :| Present(n, a) && Present(n, b) && ForkAfter(key, a, b) {
      ForkFails(n, key, a, b);
    }
  }
}
