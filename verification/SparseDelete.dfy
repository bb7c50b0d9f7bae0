/** Deletion from a sparse trie: exactly when it gives the root hash of the full trie. */
module SparseDelete {
  import opened Basics
  import opened HexPrefix
  import opened Trie
  import opened NormalForm
  import opened InsertCorrect
  import opened DeleteCorrect
  import opened Encoding
  import opened Decoding
  import opened RoundTrip
  import opened Sparse

  /** Slot `j` is the only one occupied. */
  predicate Only(children: Children, j: nibble) {
    children.Keys == {j}
  }

  /** Deleting `key` leaves a branch with a single child, of which `s` knows only the digest, and in
      `f` that child is a leaf or an extension. */
  predicate LosesOrphan(s: Node, f: Node, key: Nibbles) {
    match s
    case Branch(children) =>
      key != [] && key[0] in children && f.Branch? && key[0] in f.children &&
      (var r := Delete(children[key[0]], key[1..]);
       if r.Done? && r.changed && r.node.Null? then
         exists j: nibble :: Only(children - {key[0]}, j) && children[j].Digest? && j in f.children
           && (f.children[j].Leaf? || f.children[j].Extension?)
       else LosesOrphan(children[key[0]], f.children[key[0]], key[1..]))
    case Extension(path, child) =>
      PrefixNibs(path) <= key && f.Extension? && LosesOrphan(child, f.child, key[|PrefixNibs(path)|..])
    case _ => false
  }

  /** The children that are left over decide what a branch turns into. */
  lemma ShrinkSimulates(K: Keccak, s: Children, f: Children)
    requires s.Keys == f.Keys && forall i :: i in s ==> Prunes(K, s[i], f[i])
    requires forall j :: Only(s, j) && s[j].Digest? ==> !f[j].Leaf? && !f[j].Extension?
    ensures Simulates(K, Shrink(s), Shrink(f))
  {
    hide ReferenceOf, PrefixNibs, ToEncodedPath;
    SameNextChild(s, f, 0);
    var first := NextChild(s, 0);
    if first < 16 {
      SameNextChild(s, f, first + 1);
      if NextChild(s, first + 1) == 16 {
        OnlyChild(s, first as nibble);
        CollapseSimulates(K, first as nibble, s[first as nibble], f[first as nibble]);
      }
    }
  }

  lemma OnlyChild(children: Children, i: nibble)
    requires i in children && NextChild(children, 0) == i as nat && NextChild(children, i as nat + 1) == 16
    ensures Only(children, i)
  {
    forall j | j in children
      ensures j == i
    {
      assert !(i as int + 1 <= j as int < 16);
    }
  }

  lemma CollapseSimulates(K: Keccak, i: nibble, s: Node, f: Node)
    requires Prunes(K, s, f) && (s.Digest? ==> !f.Leaf? && !f.Extension?)
    ensures Simulates(K, Collapse(i, s), Collapse(i, f))
  {
    hide PrefixNibs, ToEncodedPath;
    if s.Branch? || s.Digest? {
      assert Prunes(K, MakeExtension([i], s), MakeExtension([i], f));
    }
  }

  lemma MergeSimulates(K: Keccak, path: Path, s: Node, f: Node)
    requires Prunes(K, s, f) && !s.Digest?
    ensures Prunes(K, Merge(path, s), Merge(path, f))
  {
    hide ReferenceOf, PrefixNibs, ToEncodedPath;
  }

  /** A deletion that changes something never ends in a digest. */
  lemma ChangedIsNoDigest(n: Node, key: Nibbles)
    requires Delete(n, key).Done? && Delete(n, key).changed
    ensures !Delete(n, key).node.Digest?
  {
    hide PrefixNibs, ToEncodedPath;
    if n.Extension? && !Delete(n, key).node.Null? {
      ChangedIsNoDigest(n.child, key[|PrefixNibs(n.path)|..]);
    }
  }

  /** Unless it loses an orphan, deletion from a sparse trie does what it does to the full one. */
  lemma {:induction false} DeleteSimulates(K: Keccak, s: Node, f: Node, key: Nibbles)
    requires WellFormed(s) && Prunes(K, s, f) && !LosesOrphan(s, f, key)
    ensures Simulates(K, Delete(s, key), Delete(f, key))
    decreases s, 1
  {
    hide ReferenceOf, PrefixNibs, ToEncodedPath, Canonical, Merge, Shrink;
    match s
    case Null =>
    case Branch(children) => DeleteSimulatesBranch(K, s, f, key);
    case Leaf(_, _) => PrunesReflexive(K, s);
    case Extension(path, child) =>
      var nibs := PrefixNibs(path);
      if nibs <= key {
        var tail := key[|nibs|..];
        DeleteSimulates(K, child, f.child, tail);
        if Delete(child, tail).Done? && Delete(child, tail).changed {
          ChangedIsNoDigest(child, tail);
          MergeSimulates(K, path, Delete(child, tail).node, Delete(f.child, tail).node);
        }
      }
    case Digest(_) =>
  }

  lemma {:induction false} DeleteSimulatesBranch(K: Keccak, s: Node, f: Node, key: Nibbles)
    requires s.Branch? && WellFormed(s) && Prunes(K, s, f) && !LosesOrphan(s, f, key)
    ensures Simulates(K, Delete(s, key), Delete(f, key))
    decreases s, 0
  {
    hide ReferenceOf, PrefixNibs, ToEncodedPath, Canonical, Shrink;
    if key != [] && key[0] in s.children {
      var i := key[0];
      var tail := key[1..];
      var r, r' := Delete(s.children[i], tail), Delete(f.children[i], tail);
      if LosesOrphan(s.children[i], f.children[i], tail) {
        EmptiedIsLeaf(s.children[i], tail);
      } else {
        DeleteSimulates(K, s.children[i], f.children[i], tail);
        if r.Done? && r.changed {
          ChangedIsNoDigest(s.children[i], tail);
          var rest, rest' := Rest(s.children, i, r.node), Rest(f.children, i, r'.node);
          assert r.node.Null? <==> r'.node.Null?;
          NoLonelyDigest(s, i, r.node);
          ShrinkSimulates(K, rest, rest');
        }
      }
    }
  }

  lemma EmptiedIsLeaf(n: Node, key: Nibbles)
    requires WellFormed(n) && Delete(n, key).Done? && Delete(n, key).node.Null?
    ensures n.Null? || n.Leaf?
  {
    DeleteKeepsForm(n, key);
  }

  /** A branch that keeps its changed child is not left with a digest alone. */
  lemma NoLonelyDigest(s: Node, i: nibble, child: Node)
    requires s.Branch? && WellFormed(s) && i in s.children && !child.Digest?
    ensures !child.Null? ==> forall j :: Only(Rest(s.children, i, child), j) ==> !Rest(s.children, i, child)[j].Digest?
  {
    hide ReferenceOf, PrefixNibs, ToEncodedPath, Canonical;
    if !child.Null? {
      assert i in Rest(s.children, i, child).Keys;
    }
  }

  // The other half: a lost orphan changes the root hash.

  ghost predicate SlotDiffers(K: Keccak, s: Children, f: Children, i: nibble) {
    i in s && i in f && ReferenceOf(K, s[i]) != ReferenceOf(K, f[i])
  }

  /** The two results of a deletion that lost an orphan cannot have the same encoding. */
  ghost predicate Diverge(K: Keccak, s: Node, f: Node) {
    || (s.Extension? && s.child.Digest? && f.Leaf?)
    || (s.Extension? && s.child.Digest? && f.Extension? && PrefixNibs(s.path) != PrefixNibs(f.path))
    || (s.Extension? && f.Extension? && ReferenceOf(K, s.child) != ReferenceOf(K, f.child))
    || (s.Branch? && f.Branch? && exists i :: SlotDiffers(K, s.children, f.children, i))
  }

  lemma DivergingEncodings(K: Keccak, s: Node, f: Node)
    requires Diverge(K, s, f) && Writable(s) && Writable(f)
    ensures Encode(K, s) != Encode(K, f)
  {
    hide ReferenceOf, PrefixNibs, Encode, Stub;
    DecodeEncode(K, s);
    DecodeEncode(K, f);
    if s.Branch? {
      var i :| SlotDiffers(K, s.children, f.children, i);
      ShallowEncodes(K, s.children[i]);
      ShallowEncodes(K, f.children[i]);
      assert Shallow(K, s).children[i] == Stub(K, s.children[i]);
      assert Shallow(K, f).children[i] == Stub(K, f.children[i]);
    } else if f.Extension? {
      ShallowEncodes(K, s.child);
      ShallowEncodes(K, f.child);
    }
  }

  /** The encodings strictly below a node. */
  ghost function Below(K: Keccak, n: Node): set<Bytes> {
    match n
    case Branch(children) => set i, x | i in children && x in Encodings(K, children[i]) :: x
    case Extension(_, child) => Encodings(K, child)
    case _ => {}
  }

  ghost predicate WritableBelow(n: Node) {
    match n
    case Branch(children) => forall i :: i in children ==> !children[i].Null? && Writable(children[i])
    case Extension(_, child) => Writable(child)
    case _ => true
  }

  lemma BelowChild(K: Keccak, n: Node, i: nibble)
    requires n.Branch? && i in n.children
    ensures Encodings(K, n.children[i]) <= Below(K, n)
  {
  }

  lemma BelowIsInside(K: Keccak, n: Node)
    ensures Below(K, n) <= Encodings(K, n)
  {
  }

  /** Diverging children that are held by digest or in line have different references. */
  lemma DivergingReferences(K: Keccak, s: Node, f: Node)
    requires Diverge(K, s, f) && Writable(s) && Writable(f)
    requires NoCollision(K, Encodings(K, s), Encodings(K, f))
    ensures ReferenceOf(K, s) != ReferenceOf(K, f) && HashOf(K, s) != HashOf(K, f)
  {
    hide ReferenceOf, HashOf, Writable, Encodings, PrefixNibs;
    DivergingEncodings(K, s, f);
    DifferentEncodings(K, s, f);
  }

  lemma ShrinkOnly(children: Children, j: nibble)
    requires Only(children, j)
    ensures Shrink(children) == Collapse(j, children[j])
  {
    assert forall x :: x in children <==> x in children.Keys;
    assert NextChild(children, 0) <= j as int;
  }

  lemma ShrinkMany(children: Children)
    requires AtLeastTwo(children)
    ensures Shrink(children) == Done(Branch(children), true)
  {
    var x, y :| x in children && y in children && x != y;
    var first := NextChild(children, 0);
    assert first <= x as int && first <= y as int;
    var second := NextChild(children, first + 1);
    assert second <= x as int || second <= y as int;
  }

  /** Replacing a child of a branch in normal form does not shrink the branch. */
  lemma ShrinkReplaced(n: Node, i: nibble, child: Node)
    requires n.Branch? && Proper(n)
    ensures Shrink(n.children[i := child]) == Done(Branch(n.children[i := child]), true)
  {
    hide Canonical, PrefixNibs, Shrink;
    var x, y :| x in n.children && y in n.children && x != y;
    assert x in n.children[i := child] && y in n.children[i := child];
    ShrinkMany(n.children[i := child]);
  }

  /** The branch that loses its second to last child. */
  lemma LostHere(K: Keccak, s: Node, f: Node, key: Nibbles)
    requires s.Branch? && WellFormed(s) && WellFormed(f) && Prunes(K, s, f) && LosesOrphan(s, f, key)
    requires var r := Delete(s.children[key[0]], key[1..]); r.Done? && r.changed && r.node.Null?
    ensures Delete(s, key).Done? && Delete(s, key).changed && Delete(f, key).Done? && Delete(f, key).changed
    ensures !Delete(s, key).node.Null? && !Delete(f, key).node.Null?
    ensures Diverge(K, Delete(s, key).node, Delete(f, key).node)
  {
    hide ReferenceOf, PrefixNibs, ToEncodedPath, Canonical, Shrink;
    var i := key[0];
    EmptiedIsLeaf(s.children[i], key[1..]);
    var rest, rest' := s.children - {i}, f.children - {i};
    var j: nibble :| Only(rest, j) && s.children[j].Digest? && j in f.children
                  && (f.children[j].Leaf? || f.children[j].Extension?);
    assert j in rest.Keys;
    assert rest'.Keys == rest.Keys;
    ShrinkOnly(rest, j);
    ShrinkOnly(rest', j);
    assert Proper(f.children[j]);
  }

  /** Both deletions succeed when an orphan is lost. */
  lemma {:induction false} LostOrphanDeletes(K: Keccak, s: Node, f: Node, key: Nibbles)
    requires WellFormed(s) && WellFormed(f) && Prunes(K, s, f) && LosesOrphan(s, f, key)
    ensures Delete(s, key).Done? && Delete(s, key).changed && Delete(f, key).Done? && Delete(f, key).changed
    ensures !Delete(s, key).node.Null? && !Delete(f, key).node.Null?
  {
    hide ReferenceOf, PrefixNibs, ToEncodedPath, Canonical, Shrink, Merge;
    if s.Extension? {
      var tail := key[|PrefixNibs(s.path)|..];
      LostOrphanDeletes(K, s.child, f.child, tail);
      MergeNotNull(s.path, Delete(s.child, tail).node);
      MergeNotNull(f.path, Delete(f.child, tail).node);
    } else {
      var r := Delete(s.children[key[0]], key[1..]);
      if r.Done? && r.changed && r.node.Null? {
        LostHere(K, s, f, key);
      } else {
        LostOrphanDeletes(K, s.children[key[0]], f.children[key[0]], key[1..]);
        ShrinkReplaced(s, key[0], r.node);
        ShrinkReplaced(f, key[0], Delete(f.children[key[0]], key[1..]).node);
      }
    }
  }

  lemma MergeNotNull(path: Path, child: Node)
    requires !child.Null?
    ensures !Merge(path, child).Null?
  {
    hide PrefixNibs, ToEncodedPath;
  }

  /** What a lost orphan leaves behind on both sides. */
  ghost predicate CanCompare(K: Keccak, s: Node, f: Node) {
    WritableBelow(s) && WritableBelow(f) && NoCollision(K, Below(K, s), Below(K, f))
  }

  /** A lost orphan makes the two results diverge. */
  lemma {:induction false} LostOrphanDiverges(K: Keccak, s: Node, f: Node, key: Nibbles)
    requires WellFormed(s) && WellFormed(f) && Prunes(K, s, f) && LosesOrphan(s, f, key)
    requires Delete(s, key).Done? && Delete(f, key).Done?
    requires CanCompare(K, Delete(s, key).node, Delete(f, key).node)
    ensures Diverge(K, Delete(s, key).node, Delete(f, key).node)
    decreases s, 1
  {
    hide ReferenceOf, PrefixNibs, ToEncodedPath, Canonical, Merge, Shrink, Writable, Encodings, CanCompare, Diverge;
    if s.Extension? {
      LostBelowExtension(K, s, f, key);
    } else {
      var r := Delete(s.children[key[0]], key[1..]);
      if r.Done? && r.changed && r.node.Null? {
        LostHere(K, s, f, key);
      } else {
        LostBelowBranch(K, s, f, key);
      }
    }
  }

  lemma {:induction false} LostBelowBranch(K: Keccak, s: Node, f: Node, key: Nibbles)
    requires s.Branch? && WellFormed(s) && WellFormed(f) && Prunes(K, s, f) && LosesOrphan(s, f, key)
    requires var r := Delete(s.children[key[0]], key[1..]); !(r.Done? && r.changed && r.node.Null?)
    requires Delete(s, key).Done? && Delete(f, key).Done?
    requires CanCompare(K, Delete(s, key).node, Delete(f, key).node)
    ensures Diverge(K, Delete(s, key).node, Delete(f, key).node)
    decreases s, 0
  {
    hide ReferenceOf, PrefixNibs, ToEncodedPath, Canonical, Shrink, Encodings;
    var i, tail := key[0], key[1..];
    var c, d := s.children[i], f.children[i];
    LostOrphanDeletes(K, c, d, tail);
    var c', d' := Delete(c, tail).node, Delete(d, tail).node;
    ShrinkReplaced(s, i, c');
    ShrinkReplaced(f, i, d');
    var a, b := Branch(s.children[i := c']), Branch(f.children[i := d']);
    CompareChild(K, a, b, i);
    LostOrphanDiverges(K, c, d, tail);
    DivergingReferences(K, c', d');
    assert SlotDiffers(K, a.children, b.children, i);
  }

  lemma CompareChild(K: Keccak, a: Node, b: Node, i: nibble)
    requires a.Branch? && b.Branch? && i in a.children && i in b.children && CanCompare(K, a, b)
    ensures var c, d := a.children[i], b.children[i];
      CanCompare(K, c, d) && Writable(c) && Writable(d) && NoCollision(K, Encodings(K, c), Encodings(K, d))
  {
    BelowChild(K, a, i);
    BelowChild(K, b, i);
    BelowIsInside(K, a.children[i]);
    BelowIsInside(K, b.children[i]);
  }

  lemma {:induction false} LostBelowExtension(K: Keccak, s: Node, f: Node, key: Nibbles)
    requires s.Extension? && WellFormed(s) && WellFormed(f) && Prunes(K, s, f) && LosesOrphan(s, f, key)
    requires Delete(s, key).Done? && Delete(f, key).Done?
    requires CanCompare(K, Delete(s, key).node, Delete(f, key).node)
    ensures Diverge(K, Delete(s, key).node, Delete(f, key).node)
    decreases s, 0
  {
    hide ReferenceOf, PrefixNibs, ToEncodedPath, Canonical, Shrink, Encodings;
    var tail := key[|PrefixNibs(s.path)|..];
    LostOrphanDeletes(K, s.child, f.child, tail);
    ChangedIsNoDigest(s.child, tail);
    ChangedIsNoDigest(f.child, tail);
    var c, d := Delete(s.child, tail).node, Delete(f.child, tail).node;
    CompareMerged(K, s.path, c, d);
    LostOrphanDiverges(K, s.child, f.child, tail);
    DivergeMerged(K, s.path, c, d);
  }

  lemma CompareMerged(K: Keccak, path: Path, c: Node, d: Node)
    requires !c.Null? && !c.Digest? && !d.Null? && !d.Digest?
    requires CanCompare(K, Merge(path, c), Merge(path, d))
    ensures CanCompare(K, c, d)
    ensures c.Branch? && d.Branch? ==>
      Writable(c) && Writable(d) && NoCollision(K, Encodings(K, c), Encodings(K, d))
  {
    hide PrefixNibs, ToEncodedPath;
    BelowIsInside(K, c);
    BelowIsInside(K, d);
    MergedBelow(K, path, c);
    MergedBelow(K, path, d);
  }

  lemma MergedBelow(K: Keccak, path: Path, c: Node)
    requires !c.Null? && !c.Digest?
    ensures Below(K, c) <= Below(K, Merge(path, c))
    ensures WritableBelow(Merge(path, c)) ==> WritableBelow(c)
    ensures c.Branch? ==> Encodings(K, c) == Below(K, Merge(path, c)) && (WritableBelow(Merge(path, c)) ==> Writable(c))
  {
    hide PrefixNibs, ToEncodedPath;
    BelowIsInside(K, c);
  }

  lemma DivergeMerged(K: Keccak, path: Path, c: Node, d: Node)
    requires Diverge(K, c, d)
    requires c.Branch? && d.Branch? ==>
      Writable(c) && Writable(d) && NoCollision(K, Encodings(K, c), Encodings(K, d))
    ensures Diverge(K, Merge(path, c), Merge(path, d))
  {
    hide PrefixNibs, ToEncodedPath, ReferenceOf, Encodings, Writable;
    if c.Branch? {
      DivergingReferences(K, c, d);
    } else {
      var tail, tail' := PrefixNibs(c.path), PrefixNibs(d.path);
      RelatedAfter(PrefixNibs(path), tail, tail');
    }
  }

  /** Deletion from a sparse trie in normal form: it sets the flag it sets on the full trie, and it
      ends in the same root hash if and only if it loses no orphan. */
  lemma SparseDeleteHash(K: Keccak, s: Node, f: Node, key: Nibbles)
    requires WellFormed(s) && WellFormed(f) && Prunes(K, s, f) && Delete(s, key).Done?
    ensures Delete(f, key).Done? && Delete(f, key).changed == Delete(s, key).changed
    ensures var a, b := Delete(s, key).node, Delete(f, key).node;
      Writable(a) && Writable(b) && NoCollision(K, Encodings(K, a), Encodings(K, b)) ==>
        (HashOf(K, a) == HashOf(K, b) <==> !LosesOrphan(s, f, key))
    ensures !LosesOrphan(s, f, key) ==> Prunes(K, Delete(s, key).node, Delete(f, key).node)
  {
    hide ReferenceOf, HashOf, PrefixNibs, Canonical, Encodings, Writable, Delete;
    if LosesOrphan(s, f, key) {
      LostOrphanDeletes(K, s, f, key);
      var a, b := Delete(s, key).node, Delete(f, key).node;
      if Writable(a) && Writable(b) && NoCollision(K, Encodings(K, a), Encodings(K, b)) {
        TopCompare(K, a, b);
        LostOrphanDiverges(K, s, f, key);
        DivergingReferences(K, a, b);
      }
    } else {
      DeleteSimulates(K, s, f, key);
      PrunesHash(K, Delete(s, key).node, Delete(f, key).node);
    }
  }

  lemma TopCompare(K: Keccak, a: Node, b: Node)
    requires Writable(a) && Writable(b) && NoCollision(K, Encodings(K, a), Encodings(K, b))
    ensures CanCompare(K, a, b)
  {
    BelowIsInside(K, a);
    BelowIsInside(K, b);
  }
}
