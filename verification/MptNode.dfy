/** The trie as the program keeps it: nodes that are changed in place and that cache the reference by
    which their parents hold them. Every node carries, as ghost state, the trie it stands for. */
module MptNodes {
  import opened Basics
  import opened HexPrefix
  import opened Rlp
  import opened Trie
  import opened Encoding

  datatype NodeData =
    | NullData
    | BranchData(children: map<nibble, MptNode>)
    | LeafData(path: Path, value: Bytes)
    | ExtensionData(path: Path, child: MptNode)
    | DigestData(hash: Hash)

  /** What a mutation returns. */
  datatype Answer = Ok(changed: bool) | Err(error: Error) | Panic

  function AnswerOf(o: Outcome): Answer {
    match o
    case Done(_, changed) => Ok(changed)
    case Failed(error) => Err(error)
    case Panicked => Panic
  }

  class MptNode {
    var data: NodeData
    var cachedReference: Option<Reference>
    ghost var model: Node
    ghost var Repr: set<MptNode>

    /** The node and everything below it is consistent, this node's cache aside. */
    ghost predicate ValidBody(K: Keccak)
      reads this, Repr
      ensures ValidBody(K) ==> this in Repr
      decreases Repr, 0
    {
      this in Repr &&
      match data
      case NullData => model == Null
      case LeafData(path, value) => model == Leaf(path, value)
      case DigestData(hash) => model == Digest(hash)
      case ExtensionData(path, child) =>
        && Holds(child)
        && child.Valid(K)
        && model == Extension(path, child.model)
      case BranchData(children) =>
        && (forall i :: i in children ==> Holds(children[i]) && children[i].Valid(K))
        && (forall i, j :: i in children && j in children && i != j ==> children[i].Repr !! children[j].Repr)
        && model.Branch?
        && model.children.Keys == children.Keys
        && (forall i :: i in children ==> model.children[i] == children[i].model)
    }

    ghost predicate Holds(child: MptNode)
      reads this, Repr
    {
      child in Repr && child.Repr <= Repr && this !in child.Repr
    }

    /** Consistent, with a correct cache here and at every node below. */
    ghost predicate Valid(K: Keccak)
      reads this, Repr
      ensures Valid(K) ==> this in Repr
      decreases Repr, 1
    {
      ValidBody(K) && (cachedReference.Some? ==> cachedReference.value == ReferenceOf(K, model))
    }

    /** A node that was just built from its data has an empty cache. */
    constructor FromLeaf(ghost K: Keccak, path: Path, value: Bytes)
      ensures Valid(K) && fresh(Repr) && model == Leaf(path, value)
      ensures data == LeafData(path, value) && cachedReference == None
    {
      data := LeafData(path, value);
      cachedReference := None;
      model := Leaf(path, value);
      Repr := {this};
    }

    constructor Default(ghost K: Keccak)
      ensures Valid(K) && fresh(Repr) && model == Null
      ensures data == NullData && cachedReference == None
    {
      data := NullData;
      cachedReference := None;
      model := Null;
      Repr := {this};
    }

    constructor FromDigest(ghost K: Keccak, hash: Hash)
      ensures Valid(K) && fresh(Repr) && model == Digest(hash)
      ensures data == DigestData(hash) && cachedReference == None
    {
      data := DigestData(hash);
      cachedReference := None;
      model := Digest(hash);
      Repr := {this};
    }

    constructor FromChildren(ghost K: Keccak, children: map<nibble, MptNode>,
                             ghost branch: Node, ghost footprint: set<MptNode>)
      requires branch.Branch? && branch.children.Keys == children.Keys
      requires forall i :: i in children ==>
        children[i].Valid(K) && children[i].Repr <= footprint && children[i].model == branch.children[i]
      requires forall i, j :: i in children && j in children && i != j ==> children[i].Repr !! children[j].Repr
      ensures Valid(K) && model == branch && cachedReference == None
      ensures Repr == footprint + {this}
    {
      data := BranchData(children);
      cachedReference := None;
      model := branch;
      Repr := footprint + {this};
    }

    constructor FromExtension(ghost K: Keccak, path: Path, child: MptNode)
      requires child.Valid(K)
      ensures Valid(K) && fresh(Repr - child.Repr) && model == Extension(path, child.model)
      ensures Repr == child.Repr + {this}
    {
      data := ExtensionData(path, child);
      cachedReference := None;
      model := Extension(path, child.model);
      Repr := child.Repr + {this};
    }

    constructor FromFork(ghost K: Keccak, i: nibble, a: MptNode, j: nibble, b: MptNode)
      requires i != j && a.Valid(K) && b.Valid(K) && a.Repr !! b.Repr
      ensures Valid(K) && fresh(Repr - a.Repr - b.Repr) && model == Fork(i, a.model, j, b.model)
      ensures Repr == a.Repr + b.Repr + {this}
    {
      data := BranchData(map[i := a][j := b]);
      cachedReference := None;
      model := Fork(i, a.model, j, b.model);
      Repr := a.Repr + b.Repr + {this};
    }

    method InvalidateRefCache(ghost K: Keccak)
      requires ValidBody(K)
      modifies this`cachedReference
      ensures Valid(K) && cachedReference == None
    {
      cachedReference := None;
    }

    method Clear(ghost K: Keccak)
      requires Valid(K)
      modifies this
      ensures Valid(K) && Repr == old(Repr) && model == Null && cachedReference == None
    {
      data := NullData;
      model := Null;
      InvalidateRefCache(K);
    }

    /** Sets one key in place. An answer other than `Ok(true)` leaves every node as it was. */
    method InsertInternal(ghost K: Keccak, key: Nibbles, value: Bytes) returns (r: Answer)
      requires Valid(K)
      modifies Repr
      ensures Valid(K) && fresh(Repr - old(Repr))
      ensures r == AnswerOf(Insert(old(model), key, value))
      ensures r == Ok(true) ==> model == Insert(old(model), key, value).node && cachedReference == None
      ensures r != Ok(true) ==> model == old(model) && Repr == old(Repr) && unchanged(old(Repr))
      decreases Repr, 2
    {
      hide PrefixNibs, ToEncodedPath, Lcp, ReferenceOf;
      match data {
        case NullData =>
          data := LeafData(ToEncodedPath(key, true), value);
          model := MakeLeaf(key, value);
          r := Ok(true);
        case BranchData(_) => r := InsertIntoBranch(K, key, value);
        case LeafData(_, _) => r := InsertIntoLeaf(K, key, value);
        case ExtensionData(_, _) => r := InsertIntoExtension(K, key, value);
        case DigestData(hash) => r := Err(NodeNotResolved(hash));
      }
      if r == Ok(true) {
        InvalidateRefCache(K);
      }
    }

    method InsertIntoBranch(ghost K: Keccak, key: Nibbles, value: Bytes) returns (r: Answer)
      requires Valid(K) && data.BranchData?
      modifies Repr
      ensures ValidBody(K) && fresh(Repr - old(Repr))
      ensures r == AnswerOf(Insert(old(model), key, value))
      ensures r == Ok(true) ==> model == Insert(old(model), key, value).node
      ensures r != Ok(true) ==> model == old(model) && Repr == old(Repr) && unchanged(old(Repr))
      decreases Repr, 1
    {
      hide PrefixNibs, ToEncodedPath, Lcp, ReferenceOf;
      if key == [] {
        return Err(ValueInBranch);
      }
      var i, children := key[0], data.children;
      if i in children {
        r := InsertIntoChild(K, i, key[1..], value);
      } else {
        var leaf := new MptNode.FromLeaf(K, ToEncodedPath(key[1..], true), value);
        AddChild(K, i, leaf);
        r := Ok(true);
      }
    }

    method AddChild(ghost K: Keccak, i: nibble, child: MptNode)
      requires Valid(K) && data.BranchData? && model.Branch? && i !in data.children
      requires child.Valid(K) && child.Repr !! Repr
      modifies this`data, this`model, this`Repr
      ensures ValidBody(K) && Repr == old(Repr) + child.Repr
      ensures model == Branch(old(model).children[i := child.model])
    {
      hide ReferenceOf;
      data := BranchData(data.children[i := child]);
      model := Branch(model.children[i := child.model]);
      Repr := Repr + child.Repr;
    }

    method InsertIntoChild(ghost K: Keccak, i: nibble, tail: Nibbles, value: Bytes) returns (r: Answer)
      requires Valid(K) && data.BranchData? && i in data.children && model.Branch? && i in model.children
      modifies Repr
      ensures ValidBody(K) && fresh(Repr - old(Repr))
      ensures r == AnswerOf(Insert(old(model).children[i], tail, value))
      ensures r == Ok(true) ==>
        model == Branch(old(model).children[i := Insert(old(model).children[i], tail, value).node])
      ensures r != Ok(true) ==> model == old(model) && Repr == old(Repr) && unchanged(old(Repr))
      decreases Repr, 0
    {
      hide PrefixNibs, ToEncodedPath, Lcp, ReferenceOf, Insert;
      var child := data.children[i];
      ghost var mine := child.Repr;
      SiblingsApart(K, i);
      r := child.InsertInternal(K, tail, value);
      if r == Ok(true) {
        forall j | j in data.children && j != i
          ensures Holds(data.children[j]) && data.children[j].Valid(K)
          ensures data.children[j].Repr !! child.Repr
          ensures data.children[j].model == old(model).children[j]
        {
        }
        ChildChanged(K, i);
      }
    }

    lemma SiblingsApart(K: Keccak, i: nibble)
      requires Valid(K) && data.BranchData? && i in data.children
      ensures forall j :: j in data.children && j != i ==>
        && data.children[j] !in data.children[i].Repr
        && data.children[j].Repr !! data.children[i].Repr
    {
    }

    /** Takes note of a child that was changed in place. */
    ghost method ChildChanged(K: Keccak, i: nibble)
      requires data.BranchData? && i in data.children && this in Repr && model.Branch?
      requires model.children.Keys == data.children.Keys
      requires data.children[i].Valid(K) && this !in data.children[i].Repr && data.children[i] in data.children[i].Repr
      requires forall j :: j in data.children && j != i ==>
        && Holds(data.children[j]) && data.children[j].Valid(K)
        && data.children[j].Repr !! data.children[i].Repr
        && model.children[j] == data.children[j].model
      requires forall j, k :: j in data.children && k in data.children && j != k ==> data.children[j].Repr !! data.children[k].Repr
      modifies this`model, this`Repr
      ensures model == Branch(old(model).children[i := data.children[i].model])
      ensures Repr == old(Repr) + data.children[i].Repr
      ensures ValidBody(K)
    {
      model := Branch(model.children[i := data.children[i].model]);
      Repr := Repr + data.children[i].Repr;
      forall j | j in data.children
        ensures Holds(data.children[j]) && data.children[j].Valid(K)
      {
        assert this !in data.children[j].Repr;
      }
    }

    method InsertIntoLeaf(ghost K: Keccak, key: Nibbles, value: Bytes) returns (r: Answer)
      requires Valid(K) && data.LeafData?
      modifies Repr
      ensures ValidBody(K) && fresh(Repr - old(Repr))
      ensures r == AnswerOf(Insert(old(model), key, value))
      ensures r == Ok(true) ==> model == Insert(old(model), key, value).node
      ensures r != Ok(true) ==> model == old(model) && Repr == old(Repr) && unchanged(old(Repr))
    {
      hide PrefixNibs, ToEncodedPath, Lcp, ReferenceOf;
      var nibs := ReadPrefixNibs(data.path);
      var common := CommonPrefix(nibs, key);
      if common == |nibs| && common == |key| {
        if data.value == value {
          return Ok(false);
        }
        data := LeafData(data.path, value);
        model := Leaf(data.path, value);
      } else if common == |nibs| || common == |key| {
        return Err(ValueInBranch);
      } else {
        var rest := new MptNode.FromLeaf(K, ToEncodedPath(nibs[common + 1..], true), data.value);
        SplitHere(K, nibs, rest, key, value);
      }
      r := Ok(true);
    }

    /** Turns this node into the two-way split of its path. */
    method SplitHere(ghost K: Keccak, nibs: Nibbles, rest: MptNode, key: Nibbles, value: Bytes)
      requires Lcp(nibs, key) < |nibs| && Lcp(nibs, key) < |key|
      requires rest.Valid(K) && this !in rest.Repr
      modifies this
      ensures ValidBody(K) && fresh(Repr - rest.Repr - {this})
      ensures model == Split(nibs, rest.model, key, value)
    {
      hide PrefixNibs, ToEncodedPath, Lcp, ReferenceOf;
      var common := CommonPrefix(nibs, key);
      var leaf := new MptNode.FromLeaf(K, ToEncodedPath(key[common + 1..], true), value);
      if common > 0 {
        var fork := new MptNode.FromFork(K, nibs[common], rest, key[common], leaf);
        data := ExtensionData(ToEncodedPath(nibs[..common], false), fork);
        Repr := fork.Repr + {this};
        model := MakeExtension(nibs[..common], fork.model);
      } else {
        ForkHere(K, nibs[common], rest, key[common], leaf);
      }
    }

    /** Turns this node into a branch with two children. */
    method ForkHere(ghost K: Keccak, i: nibble, a: MptNode, j: nibble, b: MptNode)
      requires i != j && a.Valid(K) && b.Valid(K) && a.Repr !! b.Repr && this !in a.Repr && this !in b.Repr
      modifies this
      ensures ValidBody(K) && Repr == a.Repr + b.Repr + {this}
      ensures model == Fork(i, a.model, j, b.model)
    {
      hide ReferenceOf;
      data := BranchData(map[i := a][j := b]);
      Repr := a.Repr + b.Repr + {this};
      model := Fork(i, a.model, j, b.model);
    }

    method InsertIntoExtension(ghost K: Keccak, key: Nibbles, value: Bytes) returns (r: Answer)
      requires Valid(K) && data.ExtensionData?
      modifies Repr
      ensures ValidBody(K) && fresh(Repr - old(Repr))
      ensures r == AnswerOf(Insert(old(model), key, value))
      ensures r == Ok(true) ==> model == Insert(old(model), key, value).node
      ensures r != Ok(true) ==> model == old(model) && Repr == old(Repr) && unchanged(old(Repr))
      decreases Repr, 0
    {
      hide PrefixNibs, ToEncodedPath, Lcp, ReferenceOf;
      var path, child := data.path, data.child;
      var nibs := ReadPrefixNibs(path);
      var common := CommonPrefix(nibs, key);
      if common == |nibs| {
        r := child.InsertInternal(K, key[common..], value);
        if r != Ok(true) {
          return;
        }
        model := Extension(path, child.model);
        Repr := Repr + child.Repr;
      } else if common == |key| {
        return Err(ValueInBranch);
      } else {
        if common + 1 < |nibs| {
          var rest := new MptNode.FromExtension(K, ToEncodedPath(nibs[common + 1..], false), child);
          SplitHere(K, nibs, rest, key, value);
        } else {
          SplitHere(K, nibs, child, key, value);
        }
        r := Ok(true);
      }
    }

    method IsEmpty(ghost K: Keccak) returns (r: bool)
      requires Valid(K)
      ensures r == model.Null?
    {
      r := data.NullData?;
    }

    /** Removes one key in place. An error, or `Ok(false)`, leaves every node as it was; nothing is
        promised of a trie on which the program panics. */
    method DeleteInternal(ghost K: Keccak, key: Nibbles) returns (r: Answer)
      requires Valid(K)
      modifies Repr
      ensures fresh(Repr - old(Repr))
      ensures r == AnswerOf(Delete(old(model), key))
      ensures r == Ok(true) ==> Valid(K) && model == Delete(old(model), key).node && cachedReference == None
      ensures r == Ok(false) || r.Err? ==>
        Valid(K) && model == old(model) && Repr == old(Repr) && unchanged(old(Repr))
      decreases Repr, 2
    {
      hide PrefixNibs, ToEncodedPath, ReferenceOf;
      match data {
        case NullData => r := Ok(false);
        case BranchData(_) => r := DeleteFromBranch(K, key);
        case LeafData(path, _) =>
          if PrefixNibs(path) == key {
            data := NullData;
            model := Null;
            r := Ok(true);
          } else {
            r := Ok(false);
          }
        case ExtensionData(_, _) => r := DeleteFromExtension(K, key);
        case DigestData(hash) => r := Err(NodeNotResolved(hash));
      }
      if r == Ok(true) {
        InvalidateRefCache(K);
      }
    }

    lemma RestOfUpdate(children: Children, i: nibble, child: Node)
      ensures Rest(children[i := child], i, child) == Rest(children, i, child)
    {
    }

    method DeleteFromBranch(ghost K: Keccak, key: Nibbles) returns (r: Answer)
      requires Valid(K) && data.BranchData?
      modifies Repr
      ensures fresh(Repr - old(Repr))
      ensures r == AnswerOf(Delete(old(model), key))
      ensures r == Ok(true) ==> ValidBody(K) && model == Delete(old(model), key).node
      ensures r == Ok(false) || r.Err? ==>
        Valid(K) && model == old(model) && Repr == old(Repr) && unchanged(old(Repr))
      decreases Repr, 1
    {
      hide PrefixNibs, ToEncodedPath, ReferenceOf, Shrink, Rest;
      if key == [] {
        return Err(ValueInBranch);
      }
      if key[0] !in data.children {
        return Ok(false);
      }
      r := DeleteFromChild(K, key[0], key[1..]);
      if r == Ok(true) {
        RestOfUpdate(old(model).children, key[0], Delete(old(model).children[key[0]], key[1..]).node);
        RemoveIfEmpty(K, key[0]);
        r := ShrinkHere(K);
      }
    }

    method DeleteFromChild(ghost K: Keccak, i: nibble, tail: Nibbles) returns (r: Answer)
      requires Valid(K) && data.BranchData? && i in data.children && model.Branch? && i in model.children
      modifies Repr
      ensures fresh(Repr - old(Repr))
      ensures r == AnswerOf(Delete(old(model).children[i], tail))
      ensures r == Ok(true) ==>
        && ValidBody(K) && data.BranchData? && i in data.children
        && model == Branch(old(model).children[i := Delete(old(model).children[i], tail).node])
      ensures r == Ok(false) || r.Err? ==>
        Valid(K) && model == old(model) && Repr == old(Repr) && unchanged(old(Repr))
      decreases Repr, 0
    {
      hide PrefixNibs, ToEncodedPath, ReferenceOf, Delete;
      var child := data.children[i];
      SiblingsApart(K, i);
      r := child.DeleteInternal(K, tail);
      if r == Ok(true) {
        forall j | j in data.children && j != i
          ensures Holds(data.children[j]) && data.children[j].Valid(K)
          ensures data.children[j].Repr !! child.Repr
          ensures data.children[j].model == old(model).children[j]
        {
        }
        ChildChanged(K, i);
      }
    }

    /** A slot never holds an empty trie. */
    method RemoveIfEmpty(ghost K: Keccak, i: nibble)
      requires ValidBody(K) && data.BranchData? && i in data.children && model.Branch? && i in model.children
      modifies this`data, this`model
      ensures ValidBody(K) && data.BranchData?
      ensures model == Branch(Rest(old(model).children, i, old(model).children[i]))
    {
      hide ReferenceOf;
      var empty := data.children[i].IsEmpty(K);
      if empty {
        data := BranchData(data.children - {i});
        model := Branch(model.children - {i});
      }
    }

    /** Converts a branch that is left with a single child. */
    method ShrinkHere(ghost K: Keccak) returns (r: Answer)
      requires ValidBody(K) && data.BranchData? && model.Branch?
      modifies this`data, this`model
      ensures r == AnswerOf(Shrink(old(model).children))
      ensures r == Ok(true) ==> ValidBody(K) && model == Shrink(old(model).children).node
    {
      hide PrefixNibs, ToEncodedPath, ReferenceOf;
      var children := data.children;
      SameNextChild(children, model.children, 0);
      var first := NextChild(children, 0);
      if first == 16 {
        return Panic;
      }
      SameNextChild(children, model.children, first + 1);
      if NextChild(children, first + 1) != 16 {
        return Ok(true);
      }
      r := CollapseHere(K, first as nibble);
    }

    /** Takes over the path, or the whole, of the only child. */
    method CollapseHere(ghost K: Keccak, index: nibble) returns (r: Answer)
      requires ValidBody(K) && data.BranchData? && index in data.children && model.Branch? && index in model.children
      modifies this`data, this`model
      ensures r == AnswerOf(Collapse(index, old(model).children[index]))
      ensures r == Ok(true) ==> ValidBody(K) && model == Collapse(index, old(model).children[index]).node
    {
      hide PrefixNibs, ToEncodedPath, ReferenceOf;
      var orphan := data.children[index];
      assert orphan.Valid(K) && orphan.ValidBody(K) && Holds(orphan) && orphan.model == model.children[index];
      match orphan.data {
        case LeafData(path, value) =>
          data := LeafData(ToEncodedPath([index] + PrefixNibs(path), true), value);
        case ExtensionData(path, child) =>
          data := ExtensionData(ToEncodedPath([index] + PrefixNibs(path), false), child);
        case BranchData(_) => data := ExtensionData(ToEncodedPath([index], false), orphan);
        case DigestData(_) => data := ExtensionData(ToEncodedPath([index], false), orphan);
        case NullData => return Panic;
      }
      model := Collapse(index, orphan.model).node;
      r := Ok(true);
    }

    method DeleteFromExtension(ghost K: Keccak, key: Nibbles) returns (r: Answer)
      requires Valid(K) && data.ExtensionData?
      modifies Repr
      ensures fresh(Repr - old(Repr))
      ensures r == AnswerOf(Delete(old(model), key))
      ensures r == Ok(true) ==> ValidBody(K) && model == Delete(old(model), key).node
      ensures r == Ok(false) || r.Err? ==>
        Valid(K) && model == old(model) && Repr == old(Repr) && unchanged(old(Repr))
      decreases Repr, 1
    {
      hide PrefixNibs, ToEncodedPath, ReferenceOf, Merge;
      var child := data.child;
      var nibs := ReadPrefixNibs(data.path);
      if !(nibs <= key) {
        return Ok(false);
      }
      r := child.DeleteInternal(K, key[|nibs|..]);
      if r == Ok(true) {
        MergeHere(K);
      }
    }

    /** An extension only points at a branch or a digest: takes over the path of any other child. */
    method MergeHere(ghost K: Keccak)
      requires data.ExtensionData? && this in Repr
      requires data.child.Valid(K) && this !in data.child.Repr
      modifies this`data, this`model, this`Repr
      ensures ValidBody(K) && Repr == old(Repr) + old(data).child.Repr
      ensures model == Merge(old(data).path, old(data).child.model)
    {
      hide PrefixNibs, ToEncodedPath, ReferenceOf;
      var child := data.child;
      var path := data.path;
      Repr := Repr + child.Repr;
      model := Merge(path, child.model);
      match child.data {
        case NullData => data := NullData;
        case LeafData(tail, value) =>
          data := LeafData(ToEncodedPath(PrefixNibs(path) + PrefixNibs(tail), true), value);
        case ExtensionData(tail, grandchild) =>
          data := ExtensionData(ToEncodedPath(PrefixNibs(path) + PrefixNibs(tail), false), grandchild);
        case BranchData(_) =>
        case DigestData(_) =>
      }
    }

    method GetInternal(ghost K: Keccak, key: Nibbles) returns (r: Lookup)
      requires Valid(K)
      ensures r == Get(model, key)
      decreases Repr
    {
      hide PrefixNibs, ReferenceOf;
      match data {
        case NullData => r := Found(None);
        case BranchData(children) =>
          if key != [] && key[0] in children {
            r := children[key[0]].GetInternal(K, key[1..]);
          } else {
            r := Found(None);
          }
        case LeafData(path, value) => r := Found(if PrefixNibs(path) == key then Some(value) else None);
        case ExtensionData(path, child) =>
          var nibs := ReadPrefixNibs(path);
          if nibs <= key {
            r := child.GetInternal(K, key[|nibs|..]);
          } else {
            r := Found(None);
          }
        case DigestData(hash) => r := Unresolved(NodeNotResolved(hash));
      }
    }

    // References: filling caches changes nothing else.

    /** The reference of this node, from the cache if it is there. */
    method GetReference(K: Keccak) returns (r: Reference)
      requires Valid(K)
      modifies Repr`cachedReference
      ensures Valid(K) && r == ReferenceOf(K, model) && cachedReference == Some(r)
      decreases Repr, 5
    {
      hide ReferenceOf;
      if cachedReference.Some? {
        return cachedReference.value;
      }
      r := CalcReference(K);
      cachedReference := Some(r);
    }

    method CalcReference(K: Keccak) returns (r: Reference)
      requires Valid(K)
      modifies Repr`cachedReference
      ensures Valid(K) && r == ReferenceOf(K, model)
      ensures !model.Null? && !model.Digest? ==>
        r == if |Encode(K, model)| < 32 then Inline(Encode(K, model)) else ByDigest(K(Encode(K, model)))
      decreases Repr, 4
    {
      match data {
        case NullData => r := Inline([EMPTY_STRING_CODE]);
        case DigestData(hash) => r := ByDigest(hash);
        case _ =>
          var encoded := EncodeNode(K);
          r := if |encoded| < 32 then Inline(encoded) else ByDigest(K(encoded));
      }
    }

    method ReferenceEncode(K: Keccak) returns (out: Bytes)
      requires Valid(K)
      modifies Repr`cachedReference
      ensures Valid(K) && out == WriteReference(ReferenceOf(K, model))
      ensures !model.Null? && !model.Digest? ==>
        out == if |Encode(K, model)| < 32 then Encode(K, model) else [0xa0] + K(Encode(K, model))
      decreases Repr, 6
    {
      hide ReferenceOf, Encode;
      if !model.Null? && !model.Digest? {
        ShortIsInline(K, model);
      }
      var r := GetReference(K);
      match r {
        case Inline(bytes) => out := bytes;
        case ByDigest(hash) => out := [EMPTY_STRING_CODE + 32] + hash;
      }
    }

    method GetReferenceLength(K: Keccak) returns (n: nat)
      requires Valid(K)
      modifies Repr`cachedReference
      ensures Valid(K) && n == ReferenceLength(K, model)
      decreases Repr, 6
    {
      hide ReferenceOf;
      var r := GetReference(K);
      match r {
        case Inline(bytes) => n := |bytes|;
        case ByDigest(_) => n := 1 + 32;
      }
    }

    /** The bytes of one slot of a branch. */
    method SlotEncode(K: Keccak, i: nibble) returns (out: Bytes)
      requires Valid(K) && data.BranchData? && model.Branch?
      modifies Repr`cachedReference
      ensures Valid(K) && out == EncodeSlot(K, model, i)
      decreases Repr, 0
    {
      hide ReferenceOf;
      var children := data.children;
      if i in children {
        SiblingsApart(K, i);
        out := children[i].ReferenceEncode(K);
        forall j | j in children
          ensures children[j].Valid(K)
        {
        }
      } else {
        out := [EMPTY_STRING_CODE];
      }
    }

    /** The length of one slot of a branch. */
    method SlotLength(K: Keccak, i: nibble) returns (n: nat)
      requires Valid(K) && data.BranchData? && model.Branch?
      modifies Repr`cachedReference
      ensures Valid(K)
      ensures n == if i in model.children then ReferenceLength(K, model.children[i]) else 1
      decreases Repr, 0
    {
      hide ReferenceOf;
      var children := data.children;
      if i in children {
        SiblingsApart(K, i);
        n := children[i].GetReferenceLength(K);
        forall j | j in children
          ensures children[j].Valid(K)
        {
        }
      } else {
        n := 1;
      }
    }

    method GetPayloadLength(K: Keccak) returns (n: nat)
      requires Valid(K)
      modifies Repr`cachedReference
      ensures Valid(K) && n == PayloadLength(K, model)
      decreases Repr, 1
    {
      hide ReferenceOf;
      match data {
        case NullData => n := 0;
        case DigestData(_) => n := 32;
        case LeafData(path, value) => n := StringLength(path) + StringLength(value);
        case ExtensionData(path, child) =>
          var length := child.GetReferenceLength(K);
          n := StringLength(path) + length;
        case BranchData(_) =>
          n := 1;
          for i := 16 downto 0
            invariant Valid(K)
            invariant n == 1 + SlotsLength(K, model, i)
          {
            var length := SlotLength(K, i as nibble);
            n := n + length;
          }
      }
    }

    /** The encoding of the node: a header with the length computed in advance, then the payload. */
    method EncodeNode(K: Keccak) returns (out: Bytes)
      requires Valid(K)
      modifies Repr`cachedReference
      ensures Valid(K) && out == Encode(K, model)
      decreases Repr, 3
    {
      hide ReferenceOf;
      match data {
        case NullData => out := [EMPTY_STRING_CODE];
        case DigestData(hash) => out := EncodeString(hash);
        case _ =>
          var length := GetPayloadLength(K);
          var payload := EncodePayload(K);
          out := Header(LIST_CODE, length) + payload;
      }
    }

    method EncodePayload(K: Keccak) returns (out: Bytes)
      requires Valid(K) && (data.BranchData? || data.LeafData? || data.ExtensionData?)
      requires model.Branch? || model.Leaf? || model.Extension?
      modifies Repr`cachedReference
      ensures Valid(K) && out == Payload(K, model)
      decreases Repr, 2
    {
      hide ReferenceOf;
      match data {
        case LeafData(path, value) => out := EncodeString(path) + EncodeString(value);
        case ExtensionData(path, child) =>
          var reference := child.ReferenceEncode(K);
          out := EncodeString(path) + reference;
        case BranchData(_) =>
          var slots := EncodeChildren(K);
          out := slots + [EMPTY_STRING_CODE];
      }
    }

    method EncodeChildren(K: Keccak) returns (out: Bytes)
      requires Valid(K) && data.BranchData? && model.Branch?
      modifies Repr`cachedReference
      ensures Valid(K) && out == EncodeSlots(K, model, 0)
      decreases Repr, 1
    {
      hide ReferenceOf, EncodeSlot;
      out := [];
      for i := 0 to 16
        invariant Valid(K)
        invariant out + EncodeSlots(K, model, i) == EncodeSlots(K, model, 0)
      {
        var slot := SlotEncode(K, i as nibble);
        assert out + EncodeSlots(K, model, i) == (out + slot) + EncodeSlots(K, model, i + 1);
        out := out + slot;
      }
    }

    /** The root hash of the trie, from caches where they are filled. */
    method GetHash(K: Keccak) returns (hash: Hash)
      requires Valid(K)
      modifies Repr`cachedReference
      ensures Valid(K) && hash == HashOf(K, model)
    {
      hide ReferenceOf;
      if data.NullData? {
        return EMPTY_ROOT;
      }
      var r := GetReference(K);
      match r {
        case ByDigest(digest) => hash := digest;
        case Inline(bytes) => hash := K(bytes);
      }
    }

    /** A deep copy, caches included. */
    method Clone(ghost K: Keccak) returns (copy: MptNode)
      requires Valid(K)
      ensures copy.Valid(K) && fresh(copy.Repr)
      ensures copy.model == model && copy.cachedReference == cachedReference
      decreases Repr, 2
    {
      hide ReferenceOf, ValidBody;
      copy := CloneData(K);
      copy.SetRefCache(K, cachedReference);
    }

    method SetRefCache(ghost K: Keccak, cache: Option<Reference>)
      requires ValidBody(K) && (cache.Some? ==> cache.value == ReferenceOf(K, model))
      modifies this`cachedReference
      ensures Valid(K) && cachedReference == cache
    {
      hide ReferenceOf;
      cachedReference := cache;
    }

    method CloneData(ghost K: Keccak) returns (copy: MptNode)
      requires Valid(K)
      ensures copy.Valid(K) && fresh(copy.Repr) && copy.model == model
      decreases Repr, 1
    {
      hide ReferenceOf;
      if data.NullData? {
        copy := new MptNode.Default(K);
      } else if data.LeafData? {
        copy := new MptNode.FromLeaf(K, data.path, data.value);
      } else if data.DigestData? {
        copy := new MptNode.FromDigest(K, data.hash);
      } else if data.ExtensionData? {
        var child := data.child.Clone(K);
        copy := new MptNode.FromExtension(K, data.path, child);
      } else {
        var children, footprint := CloneChildren(K);
        copy := new MptNode.FromChildren(K, children, model, footprint);
      }
    }

    method CloneChildren(ghost K: Keccak) returns (copies: map<nibble, MptNode>, ghost footprint: set<MptNode>)
      requires Valid(K) && data.BranchData? && model.Branch?
      ensures copies.Keys == model.children.Keys && fresh(footprint)
      ensures forall i :: i in copies ==>
        copies[i].Valid(K) && copies[i].Repr <= footprint && copies[i].model == model.children[i]
      ensures forall i, j :: i in copies && j in copies && i != j ==> copies[i].Repr !! copies[j].Repr
      decreases Repr, 0
    {
      hide ReferenceOf;
      copies, footprint := map[], {};
      for at := 0 to 16
        invariant forall i :: i in copies <==> i in model.children && i as int < at
        invariant fresh(footprint)
        invariant forall i :: i in copies ==>
          copies[i].Valid(K) && copies[i].Repr <= footprint && copies[i].model == model.children[i]
        invariant forall i, j :: i in copies && j in copies && i != j ==> copies[i].Repr !! copies[j].Repr
      {
        if at as nibble in data.children {
          var copy := data.children[at as nibble].Clone(K);
          copies, footprint := copies[at as nibble := copy], footprint + copy.Repr;
        }
      }
    }

    // The operations on byte keys.

    /** Inserting an empty value panics. */
    method InsertKey(ghost K: Keccak, key: Bytes, value: Bytes) returns (r: Answer)
      requires Valid(K)
      modifies Repr
      ensures Valid(K) && fresh(Repr - old(Repr))
      ensures r == if value == [] then Panic else AnswerOf(Insert(old(model), ToNibs(key), value))
      ensures r == Ok(true) ==> model == Insert(old(model), ToNibs(key), value).node
      ensures r != Ok(true) ==> model == old(model) && Repr == old(Repr) && unchanged(old(Repr))
    {
      if value == [] {
        return Panic;
      }
      var nibs := SplitNibs(key);
      r := InsertInternal(K, nibs, value);
    }

    /** Inserts a value that is already encoded, and so never empty. */
    method InsertRlp(ghost K: Keccak, key: Bytes, encoded: Bytes) returns (r: Answer)
      requires Valid(K)
      modifies Repr
      ensures Valid(K) && fresh(Repr - old(Repr))
      ensures r == AnswerOf(Insert(old(model), ToNibs(key), encoded))
      ensures r == Ok(true) ==> model == Insert(old(model), ToNibs(key), encoded).node
      ensures r != Ok(true) ==> model == old(model) && Repr == old(Repr) && unchanged(old(Repr))
    {
      var nibs := SplitNibs(key);
      r := InsertInternal(K, nibs, encoded);
    }

    method DeleteKey(ghost K: Keccak, key: Bytes) returns (r: Answer)
      requires Valid(K)
      modifies Repr
      ensures fresh(Repr - old(Repr))
      ensures r == AnswerOf(Delete(old(model), ToNibs(key)))
      ensures r == Ok(true) ==> Valid(K) && model == Delete(old(model), ToNibs(key)).node
      ensures r == Ok(false) || r.Err? ==>
        Valid(K) && model == old(model) && Repr == old(Repr) && unchanged(old(Repr))
    {
      var nibs := SplitNibs(key);
      r := DeleteInternal(K, nibs);
    }

    method GetKey(ghost K: Keccak, key: Bytes) returns (r: Lookup)
      requires Valid(K)
      ensures r == Get(model, ToNibs(key))
    {
      var nibs := SplitNibs(key);
      r := GetInternal(K, nibs);
    }
  }
}
