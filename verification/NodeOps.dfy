/**
  Lookup, insertion and merging on memo-cell nodes (consensus/src/trie.rs), each proved
  against its function on trees. Proofs and size estimation are in NodeReads.dfy.
 */
module NodeOps {
  import opened Common
  import opened Trie
  import opened NodeHash
  import opened TrieMerge
  import opened MemoNode

  /** `get_from`: the iterative descent computes Lookup. */
  method GetFrom(node: MptNode, key: Path, ghost S: set<MptNode>) returns (r: Option<Bytes>)
    requires Closed(S) && node in S
    ensures r == Lookup(node.tree, key)
  {
    var current, rest := node, key;
    while true
      invariant current in S && Lookup(current.tree, rest) == Lookup(node.tree, key)
      decreases current.tree
    {
      match current.shape
      case LeafShape(path, value) =>
        return if path == rest then Some(value) else None;
      case ExtensionShape(path, child) =>
        if !(path <= rest) {
          return None;
        }
        rest := rest[|path|..];
        current := child;
      case BranchShape(children, value) =>
        if rest == [] {
          return value;
        }
        var nibble := rest[0];
        if nibble > 15 || children[nibble].None? {
          return None;
        }
        assert children[nibble].value in ChildrenOf(current.shape);
        assert current.tree.children[nibble].value == children[nibble].value.tree;
        rest := rest[1..];
        current := children[nibble].value;
    }
  }

  // ---------- insertion ----------

  /** T adds only fresh nodes, and their cells are empty. */
  twostate predicate Grows(S: set<MptNode>, new T: set<MptNode>)
    reads T
  {
    S <= T && Closed(T) && forall n | n in T && n !in S :: fresh(n) && n.cached.None?
  }

  /** New nodes with empty cells keep the cell invariant. */
  lemma EmptyCellsAreFine(h: Hasher, S: set<MptNode>, T: set<MptNode>)
    requires S <= T && Closed(S) && Closed(T) && CellsOk(h, S)
    requires forall n | n in T && n !in S :: n.cached.None?
    ensures CellsOk(h, T)
  {
  }

  method NewNode(shape: Shape, ghost S: set<MptNode>) returns (node: MptNode, ghost T: set<MptNode>)
    requires Closed(S) && ChildrenOf(shape) <= S
    requires shape.BranchShape? ==> |shape.children| == 16
    ensures T == S + {node} && fresh(node) && node.cached.None? && Closed(T)
    ensures node.shape == shape && node.tree == TreeOf(shape)
  {
    node := new MptNode(shape);
    T := S + {node};
  }

  /** A node result stands for a tree result. */
  ghost predicate Represents(r: Result<MptNode, Error>, T: set<MptNode>, spec: Result<Node, Error>) {
    match r
    case Ok(n) => n in T && spec == Ok(n.tree)
    case Err(e) => spec == Err(e)
  }

  ghost predicate BranchOver(b: Shape, S: set<MptNode>) {
    b.BranchShape? && |b.children| == 16 && ChildrenOf(b) <= S
  }

  lemma SetSlot(b: Shape, slot: nat, n: MptNode, S: set<MptNode>)
    requires BranchOver(b, S) && slot < 16 && n in S
    ensures BranchOver(b.(children := b.children[slot := Some(n)]), S)
    ensures TreesOf(b.children[slot := Some(n)]) == TreesOf(b.children)[slot := Some(n.tree)]
  {
    var c := b.(children := b.children[slot := Some(n)]);
    forall m | m in ChildrenOf(c) ensures m in S {
      assert m == n || m in ChildrenOf(b);
    }
  }

  method PlaceLeafAt(b: Shape, rest: Path, value: Bytes, ghost S: set<MptNode>)
    returns (r: Result<Shape, Error>, ghost T: set<MptNode>)
    requires Closed(S) && BranchOver(b, S)
    ensures Grows(S, T)
    ensures match r
            case Ok(c) => BranchOver(c, T) && PlaceLeaf(TreeOf(b), rest, value) == Ok(TreeOf(c))
            case Err(e) => PlaceLeaf(TreeOf(b), rest, value) == Err(e)
  {
    T := S;
    if rest == [] {
      r := Ok(b.(branchValue := Some(value)));
    } else if rest[0] > 15 {
      r := Err(InvalidInput);
    } else {
      var leaf;
      leaf, T := NewNode(LeafShape(rest[1..], value), S);
      SetSlot(b, rest[0], leaf, T);
      r := Ok(b.(children := b.children[rest[0] := Some(leaf)]));
    }
  }

  method WrapNode(prefix: Path, node: MptNode, ghost S: set<MptNode>) returns (w: MptNode, ghost T: set<MptNode>)
    requires Closed(S) && node in S
    ensures Grows(S, T) && w in T && w.tree == Wrap(prefix, node.tree)
  {
    if prefix == [] {
      w, T := node, S;
    } else {
      w, T := NewNode(ExtensionShape(prefix, node), S);
    }
  }

  /** Hang the key's leaf on a branch that already has the older entry, and put the shared path above it. */
  method FinishSplit(b: Shape, shared: Path, rest: Path, value: Bytes, ghost S: set<MptNode>)
    returns (r: Result<MptNode, Error>, ghost T: set<MptNode>)
    requires Closed(S) && BranchOver(b, S)
    ensures Grows(S, T)
    ensures Represents(r, T, match PlaceLeaf(TreeOf(b), rest, value)
                             case Ok(branch) => Ok(Wrap(shared, branch))
                             case Err(e) => Err(e))
  {
    var placed, T1 := PlaceLeafAt(b, rest, value, S);
    if placed.Err? {
      return Err(placed.error), T1;
    }
    var branch, T2 := NewNode(placed.value, T1);
    var w, T3 := WrapNode(shared, branch, T2);
    return Ok(w), T3;
  }

  function EmptyBranch(): Shape {
    BranchShape(EmptySlots(), None)
  }

  lemma EmptyBranchTree(S: set<MptNode>)
    ensures BranchOver(EmptyBranch(), S) && TreeOf(EmptyBranch()) == Branch(NoChildren(), None)
  {
    hide TreesOf;
    var slots: seq<Option<MptNode>> := EmptySlots();
    forall i | 0 <= i < 16 ensures TreesOf(slots)[i] == NoChildren()[i] {
    }
    assert TreesOf(slots) == NoChildren();
  }

  method InsertLeafNode(leafPath: Path, leafValue: Bytes, key: Path, value: Bytes, ghost S: set<MptNode>)
    returns (r: Result<MptNode, Error>, ghost T: set<MptNode>)
    requires Closed(S)
    ensures Grows(S, T) && Represents(r, T, InsertLeaf(leafPath, leafValue, key, value))
  {
    if leafPath == key {
      var leaf, T1 := NewNode(LeafShape(leafPath, value), S);
      return Ok(leaf), T1;
    }
    var shared := CommonPrefixLen(leafPath, key);
    EmptyBranchTree(S);
    var b, T1 := PlaceLeafAt(EmptyBranch(), leafPath[shared..], leafValue, S);
    if b.Err? {
      return Err(b.error), T1;
    }
    r, T := FinishSplit(b.value, leafPath[..shared], key[shared..], value, T1);
  }

  method InsertExtensionNode(path: Path, child: MptNode, key: Path, value: Bytes, ghost S: set<MptNode>)
    returns (r: Result<MptNode, Error>, ghost T: set<MptNode>)
    requires Closed(S) && child in S
    ensures Grows(S, T) && Represents(r, T, InsertExtension(path, child.tree, key, value))
    decreases child.tree, 2
  {
    var shared := CommonPrefixLen(path, key);
    if shared == |path| {
      var inner, T1 := InsertIntoNode(child, key[shared..], value, S);
      if inner.Err? {
        return inner, T1;
      }
      var e, T2 := NewNode(ExtensionShape(path, inner.value), T1);
      return Ok(e), T2;
    }
    r, T := SplitExtensionNode(path, child, key, value, shared, S);
  }

  method SplitExtensionNode(path: Path, child: MptNode, key: Path, value: Bytes, shared: nat, ghost S: set<MptNode>)
    returns (r: Result<MptNode, Error>, ghost T: set<MptNode>)
    requires Closed(S) && child in S && shared < |path| && shared <= |key|
    ensures Grows(S, T) && Represents(r, T, SplitExtension(path, child.tree, key, value, shared))
  {
    hide TreesOf;
    if path[shared] > 15 {
      return Err(InvalidInput), S;
    }
    var existing, T1 := WrapNode(path[shared + 1..], child, S);
    EmptyBranchTree(T1);
    SetSlot(EmptyBranch(), path[shared], existing, T1);
    var b := EmptyBranch().(children := EmptyBranch().children[path[shared] := Some(existing)]);
    r, T := FinishSplit(b, path[..shared], key[shared..], value, T1);
  }

  method InsertBranchNode(node: MptNode, key: Path, value: Bytes, ghost S: set<MptNode>)
    returns (r: Result<MptNode, Error>, ghost T: set<MptNode>)
    requires Closed(S) && node in S && node.shape.BranchShape?
    ensures Grows(S, T) && Represents(r, T, InsertBranch(node.tree, key, value))
    decreases node.tree, 0
  {
    var b := node.shape;
    if key == [] {
      var n, T1 := NewNode(b.(branchValue := Some(value)), S);
      return Ok(n), T1;
    }
    var nibble := key[0];
    if nibble > 15 {
      return Err(InvalidInput), S;
    }
    var child: MptNode;
    if b.children[nibble].None? {
      child, T := NewNode(LeafShape(key[1..], value), S);
    } else {
      var existing := b.children[nibble].value;
      assert existing in ChildrenOf(b) && node.tree.children[nibble].value == existing.tree;
      var inner;
      inner, T := InsertIntoNode(existing, key[1..], value, S);
      if inner.Err? {
        return inner, T;
      }
      child := inner.value;
    }
    SetSlot(b, nibble, child, T);
    var n, T2 := NewNode(b.(children := b.children[nibble := Some(child)]), T);
    return Ok(n), T2;
  }

  /** `insert_into`: builds the tree that InsertInto describes, moving untouched subtrees with their cells. */
  method InsertIntoNode(node: MptNode, key: Path, value: Bytes, ghost S: set<MptNode>)
    returns (r: Result<MptNode, Error>, ghost T: set<MptNode>)
    requires Closed(S) && node in S
    ensures Grows(S, T) && Represents(r, T, InsertInto(node.tree, key, value))
    decreases node.tree, 1
  {
    match node.shape
    case LeafShape(path, prior) =>
      r, T := InsertLeafNode(path, prior, key, value, S);
    case ExtensionShape(path, child) =>
      r, T := InsertExtensionNode(path, child, key, value, S);
    case BranchShape(_, _) =>
      r, T := InsertBranchNode(node, key, value, S);
  }

  // ---------- merging ----------

  /** What an explicit stack of pending subtrees will still emit, top of stack last. */
  ghost function PendingLeaves(stack: seq<(MptNode, Path)>): seq<Entry> {
    if stack == [] then []
    else Leaves(stack[|stack| - 1].0.tree, stack[|stack| - 1].1) + PendingLeaves(stack[..|stack| - 1])
  }

  ghost function PendingNodes(stack: seq<(MptNode, Path)>): nat {
    if stack == [] then 0 else NodeCount(stack[|stack| - 1].0.tree) + PendingNodes(stack[..|stack| - 1])
  }

  lemma PushSubtree(stack: seq<(MptNode, Path)>, n: MptNode, prefix: Path)
    ensures PendingLeaves(stack + [(n, prefix)]) == Leaves(n.tree, prefix) + PendingLeaves(stack)
    ensures PendingNodes(stack + [(n, prefix)]) == NodeCount(n.tree) + PendingNodes(stack)
  {
    assert (stack + [(n, prefix)])[..|stack|] == stack;
  }

  ghost predicate StackIn(stack: seq<(MptNode, Path)>, S: set<MptNode>) {
    forall i | 0 <= i < |stack| :: stack[i].0 in S
  }

  method PushChildren(n: MptNode, prefix: Path, below: seq<(MptNode, Path)>, ghost S: set<MptNode>)
    returns (stack: seq<(MptNode, Path)>)
    requires Closed(S) && n in S && n.shape.BranchShape? && StackIn(below, S)
    ensures StackIn(stack, S)
    ensures PendingLeaves(stack) == LeavesFrom(n.tree, 0, prefix) + PendingLeaves(below)
    ensures PendingNodes(stack) == CountFrom(n.tree, 0) + PendingNodes(below)
  {
    stack := below;
    var i := 16;
    ghost var pending, count := PendingLeaves(below), PendingNodes(below);
    while i > 0
      invariant 0 <= i <= 16
      invariant StackIn(stack, S)
      invariant PendingLeaves(stack) == LeavesFrom(n.tree, i, prefix) + pending
      invariant PendingNodes(stack) == CountFrom(n.tree, i) + count
    {
      i := i - 1;
      ghost var rest := LeavesFrom(n.tree, i + 1, prefix);
      var slot := n.shape.children[i];
      assert n.tree.children[i] == if slot.Some? then Some(slot.value.tree) else None;
      if slot.Some? {
        assert slot.value in ChildrenOf(n.shape);
        PushSubtree(stack, slot.value, prefix + [i]);
        ConcatAssoc(Leaves(slot.value.tree, prefix + [i]), rest, pending);
        stack := stack + [(slot.value, prefix + [i])];
      } else {
        assert LeavesFrom(n.tree, i, prefix) == [] + rest == rest;
      }
    }
  }

  lemma Regroup(a: seq<Entry>, b: seq<Entry>, c: seq<Entry>, d: seq<Entry>)
    ensures a + (b + c + d) == (a + b) + (c + d)
  {
  }

  /** `collect_leaves`: children are pushed in reverse, so entries come out in nibble order. */
  method CollectLeaves(node: MptNode, prefix: Path, ghost S: set<MptNode>) returns (out: seq<Entry>)
    requires Closed(S) && node in S
    ensures out == Leaves(node.tree, prefix)
  {
    out := [];
    var stack := [(node, prefix)];
    PushSubtree([], node, prefix);
    assert stack == [] + [(node, prefix)];
    ghost var goal := Leaves(node.tree, prefix);
    while stack != []
      invariant StackIn(stack, S)
      invariant out + PendingLeaves(stack) == goal
      decreases PendingNodes(stack)
    {
      var (current, pref) := stack[|stack| - 1];
      var below := stack[..|stack| - 1];
      ghost var rest := PendingLeaves(below);
      match current.shape
      case LeafShape(path, value) =>
        ConcatAssoc(out, [(pref + path, value)], rest);
        out := out + [(pref + path, value)];
        stack := below;
      case ExtensionShape(path, child) =>
        assert child in ChildrenOf(current.shape);
        PushSubtree(below, child, pref + path);
        stack := below + [(child, pref + path)];
      case BranchShape(_, value) =>
        stack := PushChildren(current, pref, below, S);
        var own := if value.Some? then [(pref, value.value)] else [];
        Regroup(out, own, LeavesFrom(current.tree, 0, pref), rest);
        out := out + own;
    }
  }

  /** `merge_nodes`: builds the tree that MergeNodes describes, out of local and new nodes only. */
  method MergeNodesAt(h: Hasher, local: MptNode, remote: MptNode, ghost S: set<MptNode>, ghost R: set<MptNode>)
    returns (r: Result<MptNode, Error>, ghost T: set<MptNode>)
    requires Closed(S) && local in S && CellsOk(h, S)
    requires Closed(R) && remote in R && CellsOk(h, R) && S !! R
    modifies S, R
    ensures S <= T && Closed(T) && CellsOk(h, T) && forall n | n in T && n !in S :: fresh(n)
    ensures CellsOk(h, R) && FilledCellsKept(R, old(Cells(R))) && FilledCellsKept(S, old(Cells(S)))
    ensures Represents(r, T, MergeNodes(h, local.tree, remote.tree))
  {
    T := S;
    var localHash := ComputeHash(h, local, S);
    var remoteHash := ComputeHash(h, remote, R);
    if localHash == remoteHash {
      return Ok(local), S;
    }
    if local.shape.LeafShape? && remote.shape.LeafShape? {
      var lp, lv, rp, rv := local.shape.path, local.shape.value, remote.shape.path, remote.shape.value;
      if lp == rp {
        var leaf;
        leaf, T := NewNode(LeafShape(lp, if BytesLess(lv, rv) then rv else lv), S);
        r := Ok(leaf);
      } else {
        r, T := InsertLeafNode(lp, lv, rp, rv, S);
      }
      EmptyCellsAreFine(h, S, T);
    } else {
      var entries := CollectLeaves(remote, [], R);
      r, T := InsertEntries(h, local, entries, S);
    }
  }

  method InsertKeepingCells(h: Hasher, node: MptNode, key: Path, value: Bytes, ghost S: set<MptNode>)
    returns (r: Result<MptNode, Error>, ghost T: set<MptNode>)
    requires Closed(S) && node in S && CellsOk(h, S)
    ensures S <= T && Closed(T) && CellsOk(h, T) && forall n | n in T && n !in S :: fresh(n)
    ensures Represents(r, T, InsertInto(node.tree, key, value))
  {
    r, T := InsertIntoNode(node, key, value, S);
    EmptyCellsAreFine(h, S, T);
  }

  method InsertEntries(h: Hasher, local: MptNode, entries: seq<Entry>, ghost S: set<MptNode>)
    returns (r: Result<MptNode, Error>, ghost T: set<MptNode>)
    requires Closed(S) && local in S && CellsOk(h, S)
    ensures S <= T && Closed(T) && CellsOk(h, T) && forall n | n in T && n !in S :: fresh(n)
    ensures Represents(r, T, InsertAll(local.tree, entries))
  {
    var current := local;
    T := S;
    assert entries[0..] == entries;
    for i := 0 to |entries|
      invariant S <= T && Closed(T) && CellsOk(h, T) && current in T
      invariant forall n | n in T && n !in S :: fresh(n)
      invariant InsertAll(current.tree, entries[i..]) == InsertAll(local.tree, entries)
    {
      assert entries[i..][0] == entries[i] && entries[i..][1..] == entries[i + 1..];
      var next;
      next, T := InsertKeepingCells(h, current, entries[i].0, entries[i].1, T);
      if next.Err? {
        return next, T;
      }
      current := next.value;
    }
    return Ok(current), T;
  }

  /** Deep copy of a subtree of R, cells included, next to the nodes of S. */
  method Clone(h: Hasher, node: MptNode, ghost R: set<MptNode>, ghost S: set<MptNode>)
      returns (c: MptNode, ghost T: set<MptNode>)
    requires Closed(R) && node in R && CellsOk(h, R)
    requires Closed(S) && CellsOk(h, S)
    ensures S <= T && Closed(T) && CellsOk(h, T) && forall n | n in T && n !in S :: fresh(n)
    ensures c in T && c.tree == node.tree && c.cached == node.cached
    decreases node.tree, 1
  {
    match node.shape
    case LeafShape(_, _) =>
      c, T := CloneOver(h, node, node.shape, S);
    case ExtensionShape(path, child) =>
      assert child in ChildrenOf(node.shape);
      var copy, T1 := Clone(h, child, R, S);
      c, T := CloneOver(h, node, ExtensionShape(path, copy), T1);
    case BranchShape(children, value) =>
      var copies;
      copies, T := CloneChildren(h, node, R, S);
      c, T := CloneOver(h, node, BranchShape(copies, value), T);
  }

  method CloneChildren(h: Hasher, node: MptNode, ghost R: set<MptNode>, ghost S: set<MptNode>)
    returns (copies: seq<Option<MptNode>>, ghost T: set<MptNode>)
    requires Closed(R) && node in R && CellsOk(h, R) && node.shape.BranchShape?
    requires Closed(S) && CellsOk(h, S)
    ensures S <= T && Closed(T) && CellsOk(h, T) && forall n | n in T && n !in S :: fresh(n)
    ensures |copies| == 16 && TreesOf(copies) == TreesOf(node.shape.children)
    ensures ChildrenOf(BranchShape(copies, None)) <= T
    ensures node.cached.Some? ==> forall m | m in T && m in ChildrenOf(BranchShape(copies, None)) :: m.cached.Some?
    decreases node.tree, 0
  {
    BranchKids(h, node, R);
    hide Closed, CellsOk, ChildrenOf, TreesOf, Copies;
    var children := node.shape.children;
    copies := [];
    T := S;
    var i := 0;
    NoCopies(children, T);
    while i < 16
      invariant 0 <= i <= 16 && |copies| == i
      invariant S <= T && Closed(T) && CellsOk(h, T)
      invariant forall n | n in T && n !in S :: fresh(n)
      invariant Copies(children, copies, T, i)
    {
      var copy: Option<MptNode> := None;
      ghost var before := T;
      if children[i].Some? {
        var c;
        c, T := Clone(h, children[i].value, R, T);
        copy := Some(c);
      }
      CopiesStep(children, copies, before, T, i, copy);
      copies := copies + [copy];
      i := i + 1;
    }
    CopiesTrees(children, copies, T);
  }

  /** A branch of a closed set has sixteen slots, children in the set, and smaller trees below it. */
  lemma BranchKids(h: Hasher, node: MptNode, R: set<MptNode>)
    requires Closed(R) && node in R && CellsOk(h, R) && node.shape.BranchShape?
    ensures |node.shape.children| == 16
    ensures forall i | 0 <= i < 16 && node.shape.children[i].Some? ::
      node.shape.children[i].value in R && node.shape.children[i].value.tree < node.tree
    ensures node.cached.Some? ==>
      forall m | m in ChildrenOf(BranchShape(node.shape.children, None)) :: m.cached.Some?
  {
    assert ChildrenOf(BranchShape(node.shape.children, None)) == ChildrenOf(node.shape);
    forall i | 0 <= i < 16 && node.shape.children[i].Some?
      ensures node.shape.children[i].value in R && node.shape.children[i].value.tree < node.tree
    {
      assert node.shape.children[i].value in ChildrenOf(node.shape);
      assert node.tree.children[i].value == node.shape.children[i].value.tree;
    }
  }

  /** The first slots of a child array, copied into T with their cells. */
  ghost predicate Copies(from: seq<Option<MptNode>>, to: seq<Option<MptNode>>, T: set<MptNode>, n: nat)
    requires n <= |from| && n <= |to|
    reads set i | 0 <= i < n && from[i].Some? :: from[i].value
    reads set i | 0 <= i < n && to[i].Some? :: to[i].value
  {
    forall i | 0 <= i < n :: CopyOf(from[i], to[i], T)
  }

  lemma NoCopies(from: seq<Option<MptNode>>, T: set<MptNode>)
    ensures Copies(from, [], T, 0)
  {
  }

  ghost predicate CopyOf(from: Option<MptNode>, to: Option<MptNode>, T: set<MptNode>)
    reads if from.Some? then {from.value} else {}, if to.Some? then {to.value} else {}
  {
    if from.Some? then
      to.Some? && to.value in T && to.value.tree == from.value.tree && to.value.cached == from.value.cached
    else to.None?
  }

  lemma CopiesStep(from: seq<Option<MptNode>>, to: seq<Option<MptNode>>, before: set<MptNode>, T: set<MptNode>, n: nat,
      copy: Option<MptNode>)
    requires n < |from| && |to| == n && Copies(from, to, before, n) && before <= T && CopyOf(from[n], copy, T)
    ensures Copies(from, to + [copy], T, n + 1)
  {
  }

  lemma CopiesTrees(from: seq<Option<MptNode>>, to: seq<Option<MptNode>>, T: set<MptNode>)
    requires |from| == |to| == 16 && Copies(from, to, T, 16)
    ensures TreesOf(to) == TreesOf(from)
    ensures ChildrenOf(BranchShape(to, None)) <= T
    ensures (forall m | m in ChildrenOf(BranchShape(from, None)) :: m.cached.Some?)
      ==> forall m | m in ChildrenOf(BranchShape(to, None)) :: m.cached.Some?
  {
    forall i | 0 <= i < 16 ensures TreesOf(to)[i] == TreesOf(from)[i] {
      assert CopyOf(from[i], to[i], T);
    }
    forall m | m in ChildrenOf(BranchShape(to, None))
      ensures exists k ::
        && 0 <= k < 16 && to[k] == Some(m) && from[k].Some? && from[k].value.cached == m.cached
        && from[k].value in ChildrenOf(BranchShape(from, None))
    {
      var k :| 0 <= k < |to| && to[k].Some? && to[k].value == m;
      assert CopyOf(from[k], to[k], T);
      assert from[k].value in ChildrenOf(BranchShape(from, None));
    }
  }

  method CloneOver(h: Hasher, node: MptNode, shape: Shape, ghost S: set<MptNode>)
      returns (c: MptNode, ghost T: set<MptNode>)
    requires Closed(S) && CellsOk(h, S) && ChildrenOf(shape) <= S
    requires shape.BranchShape? ==> |shape.children| == 16
    requires TreeOf(shape) == node.tree
    requires node.cached.Some? ==> node.cached.value == HashOf(h, node.tree)
    requires node.cached.Some? ==> forall m | m in S && m in ChildrenOf(shape) :: m.cached.Some?
    ensures T == S + {c} && fresh(c) && Closed(T) && CellsOk(h, T)
    ensures c.tree == node.tree && c.cached == node.cached
  {
    ghost var before := Cells(S);
    c, T := NewNode(shape, S);
    c.cached := node.cached;
    assert c.shape == shape;
    assert forall n | n in S :: n.cached == before[n] && ChildrenOf(n.shape) <= S;
  }
}
