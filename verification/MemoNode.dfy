/**
  Trie nodes with their memo cells (consensus/src/trie.rs): the structure is fixed at
  construction, only the cell is written. Insertion, hashing, proofs and merging run on
  these nodes and are proved against the functions on trees.
 */
module MemoNode {
  import opened Common
  import opened Trie
  import opened NodeHash
  import opened TrieMerge

  datatype Shape =
    | LeafShape(path: Path, value: Bytes)
    | ExtensionShape(path: Path, child: MptNode)
    | BranchShape(children: seq<Option<MptNode>>, branchValue: Option<Bytes>)

  class MptNode {
    const shape: Shape
    var cached: Option<Hash>
    ghost const tree: Node

    constructor (shape: Shape)
      ensures this.shape == shape && cached == None && tree == TreeOf(shape)
    {
      this.shape := shape;
      this.cached := None;
      this.tree := TreeOf(shape);
    }
  }

  ghost function TreeOf(shape: Shape): Node {
    match shape
    case LeafShape(path, value) => Leaf(path, value)
    case ExtensionShape(path, child) => Extension(path, child.tree)
    case BranchShape(children, value) => Branch(TreesOf(children), value)
  }

  ghost function TreesOf(children: seq<Option<MptNode>>): (s: Children)
    ensures |s| == |children|
    ensures forall i | 0 <= i < |s| :: s[i] == if children[i].Some? then Some(children[i].value.tree) else None
  {
    if children == [] then []
    else [if children[0].Some? then Some(children[0].value.tree) else None] + TreesOf(children[1..])
  }

  ghost function ChildrenOf(shape: Shape): set<MptNode> {
    match shape
    case LeafShape(_, _) => {}
    case ExtensionShape(_, child) => {child}
    case BranchShape(children, _) => set i | 0 <= i < |children| && children[i].Some? :: children[i].value
  }

  /** A set of nodes with 16-slot branches that contains its children and whose trees match their shapes. */
  ghost predicate Closed(S: set<MptNode>) {
    forall n | n in S ::
      && n.tree == TreeOf(n.shape)
      && (n.shape.BranchShape? ==> |n.shape.children| == 16)
      && ChildrenOf(n.shape) <= S
  }

  /** Filled cells hold the plain recursive hash, and nothing below a filled cell is empty. */
  ghost predicate CellsOk(h: Hasher, S: set<MptNode>)
    reads S
  {
    forall n | n in S && n.cached.Some? ::
      && n.cached.value == HashOf(h, n.tree)
      && forall c | c in S && c in ChildrenOf(n.shape) :: c.cached.Some?
  }

  /** Every node of the subtree has its cell filled. */
  ghost predicate Memoised(n: MptNode, S: set<MptNode>)
    requires Closed(S) && n in S
    reads S
    decreases n.tree
  {
    && n.cached.Some?
    && match n.shape
       case LeafShape(_, _) => true
       case ExtensionShape(_, child) => Memoised(child, S)
       case BranchShape(children, _) => forall i | 0 <= i < |children| && children[i].Some? :: ChildMemoised(n, i, S)
  }

  ghost predicate ChildMemoised(n: MptNode, i: nat, S: set<MptNode>)
    requires Closed(S) && n in S && n.shape.BranchShape? && i < |n.shape.children| && n.shape.children[i].Some?
    reads S
    decreases n.tree, 0
  {
    var c := n.shape.children[i].value;
    assert c in ChildrenOf(n.shape);
    assert n.tree.children[i] == Some(c.tree);
    Memoised(c, S)
  }

  lemma {:induction false} FilledCellMeansMemoised(h: Hasher, n: MptNode, S: set<MptNode>)
    requires Closed(S) && CellsOk(h, S) && n in S && n.cached.Some?
    ensures Memoised(n, S)
    decreases n.tree
  {
    match n.shape
    case LeafShape(_, _) =>
    case ExtensionShape(_, child) =>
      assert child in ChildrenOf(n.shape);
      FilledCellMeansMemoised(h, child, S);
    case BranchShape(children, _) =>
      forall i | 0 <= i < |children| && children[i].Some? ensures ChildMemoised(n, i, S) {
        assert children[i].value in ChildrenOf(n.shape);
        assert n.tree.children[i] == Some(children[i].value.tree);
        FilledCellMeansMemoised(h, children[i].value, S);
      }
  }

  // ---------- hashing ----------

  datatype Task = Visit(node: MptNode) | Emit(node: MptNode)

  ghost function TaskCost(t: Task): nat {
    if t.Visit? then 2 * NodeCount(t.node.tree) else 1
  }

  ghost function StackCost(stack: seq<Task>): nat {
    if stack == [] then 0 else StackCost(stack[..|stack| - 1]) + TaskCost(stack[|stack| - 1])
  }

  lemma PushCost(stack: seq<Task>, t: Task)
    ensures StackCost(stack + [t]) == StackCost(stack) + TaskCost(t)
  {
    assert (stack + [t])[..|stack|] == stack;
  }

  /** Every child of a node waiting to be emitted is hashed already or has a task above it. */
  ghost predicate ChildrenPending(stack: seq<Task>, S: set<MptNode>)
    reads S
  {
    forall i | 0 <= i < |stack| && stack[i].Emit? ::
      forall c | c in S && c in ChildrenOf(stack[i].node.shape) :: c.cached.Some? || PendingAbove(stack, i, c)
  }

  ghost predicate PendingAbove(stack: seq<Task>, i: int, c: MptNode) {
    exists j :: 0 <= j < |stack| && i < j && stack[j].node == c
  }

  ghost predicate FilledCellsKept(S: set<MptNode>, before: map<MptNode, Option<Hash>>)
    reads S
  {
    forall n | n in S && n in before && before[n].Some? :: n.cached == before[n]
  }

  ghost function Cells(S: set<MptNode>): (m: map<MptNode, Option<Hash>>)
    reads S
    ensures m.Keys == S
  {
    map n | n in S :: n.cached
  }

  /** The walk's results so far are hashes of the trees they stand for. */
  ghost predicate DoneOk(h: Hasher, done: map<MptNode, Hash>) {
    forall n | n in done :: done[n] == HashOf(h, n.tree)
  }

  /** A node's hash, wherever it was found; it is missing only if the node is neither memoised nor done. */
  method SubtreeHash(ghost h: Hasher, node: MptNode, done: map<MptNode, Hash>, ghost S: set<MptNode>)
    returns (r: Result<Hash, Error>)
    requires node in S && CellsOk(h, S) && DoneOk(h, done)
    ensures r == if node.cached.Some? || node in done then Ok(HashOf(h, node.tree)) else Err(InvalidInput)
  {
    if node.cached.Some? {
      return Ok(node.cached.value);
    }
    return if node in done then Ok(done[node]) else Err(InvalidInput);
  }

  /** The hash computed at an Emit task, from hashed children. */
  method EmitHash(h: Hasher, node: MptNode, done: map<MptNode, Hash>, ghost S: set<MptNode>)
    returns (r: Result<Hash, Error>)
    requires Closed(S) && node in S && CellsOk(h, S) && DoneOk(h, done)
    requires forall c | c in S && c in ChildrenOf(node.shape) :: c.cached.Some?
    ensures r == Ok(HashOf(h, node.tree))
  {
    match node.shape
    case LeafShape(path, value) =>
      r := Ok(h(LeafPayload(path, value)));
    case ExtensionShape(path, child) =>
      assert child in ChildrenOf(node.shape);
      var childHash := SubtreeHash(h, child, done, S);
      if childHash.Err? {
        return childHash;
      }
      r := Ok(h(ExtensionPayload(path, childHash.value)));
    case BranchShape(children, value) =>
      var hashes: seq<Option<Hash>> := [];
      ghost var goal := ChildHashes(h, node.tree);
      for i := 0 to |children|
        invariant hashes == goal[..i]
      {
        if children[i].Some? {
          assert children[i].value in ChildrenOf(node.shape);
          var childHash := SubtreeHash(h, children[i].value, done, S);
          if childHash.Err? {
            return childHash;
          }
          hashes := hashes + [Some(childHash.value)];
        } else {
          hashes := hashes + [None];
        }
      }
      assert hashes == goal;
      r := Ok(h(BranchPayload(hashes, value)));
  }

  /** Hash a node and set its cell; a cell already set by another walk keeps its value. */
  method FillCell(h: Hasher, node: MptNode, done: map<MptNode, Hash>, ghost S: set<MptNode>)
    returns (r: Result<Hash, Error>)
    requires Closed(S) && node in S && CellsOk(h, S) && DoneOk(h, done)
    requires forall c | c in S && c in ChildrenOf(node.shape) :: c.cached.Some?
    modifies node
    ensures r == Ok(HashOf(h, node.tree)) && node.cached == Some(HashOf(h, node.tree))
    ensures CellsOk(h, S)
  {
    r := EmitHash(h, node, done, S);
    if r.Ok? && node.cached.None? {
      node.cached := Some(r.value);
    }
  }

  ghost predicate TasksIn(stack: seq<Task>, S: set<MptNode>) {
    forall i | 0 <= i < |stack| :: stack[i].node in S
  }

  /** Tasks for a node's children, in the order the source pushes them. */
  method PushChildVisits(node: MptNode, below: seq<Task>, ghost S: set<MptNode>) returns (stack: seq<Task>)
    requires Closed(S) && node in S && TasksIn(below, S)
    ensures below <= stack && TasksIn(stack, S)
    ensures forall i | |below| <= i < |stack| :: stack[i].Visit?
    ensures forall c | c in ChildrenOf(node.shape) :: Visit(c) in stack[|below|..]
    ensures StackCost(stack) + 2 == StackCost(below) + 2 * NodeCount(node.tree)
  {
    match node.shape
    case LeafShape(_, _) =>
      stack := below;
    case ExtensionShape(_, child) =>
      assert child in ChildrenOf(node.shape);
      PushCost(below, Visit(child));
      stack := below + [Visit(child)];
    case BranchShape(_, _) =>
      var visits := BranchVisits(node, S);
      AppendVisits(below, visits);
      stack := below + visits;
      assert stack[|below|..] == visits;
  }

  ghost function VisitCost(visits: seq<Task>): nat {
    if visits == [] then 0 else VisitCost(visits[..|visits| - 1]) + TaskCost(visits[|visits| - 1])
  }

  lemma {:induction false} AppendVisits(below: seq<Task>, visits: seq<Task>)
    ensures StackCost(below + visits) == StackCost(below) + VisitCost(visits)
  {
    if visits == [] {
      assert below + visits == below;
    } else {
      var most, last := visits[..|visits| - 1], visits[|visits| - 1];
      AppendVisits(below, most);
      PushCost(below + most, last);
      assert (below + most) + [last] == below + visits;
    }
  }

  /** Visits for the children in the first slots. */
  function VisitsUpTo(children: seq<Option<MptNode>>, n: nat): (s: seq<Task>)
    requires n <= |children|
    ensures forall i | 0 <= i < |s| :: s[i].Visit?
  {
    if n == 0 then []
    else VisitsUpTo(children, n - 1) + if children[n - 1].Some? then [Visit(children[n - 1].value)] else []
  }

  lemma {:induction false} VisitsComplete(children: seq<Option<MptNode>>, n: nat, k: nat)
    requires k < n <= |children| && children[k].Some?
    ensures Visit(children[k].value) in VisitsUpTo(children, n)
  {
    if k < n - 1 {
      VisitsComplete(children, n - 1, k);
    }
  }

  lemma {:induction false} VisitsBelong(node: MptNode, n: nat, S: set<MptNode>)
    requires Closed(S) && node in S && node.shape.BranchShape? && n <= 16
    ensures TasksIn(VisitsUpTo(node.shape.children, n), S)
    ensures VisitCost(VisitsUpTo(node.shape.children, n)) + 2 * CountFrom(node.tree, n) == 2 * CountFrom(node.tree, 0)
  {
    if n > 0 {
      VisitsBelong(node, n - 1, S);
      var most := VisitsUpTo(node.shape.children, n - 1);
      var slot := node.shape.children[n - 1];
      assert node.tree.children[n - 1] == if slot.Some? then Some(slot.value.tree) else None;
      if slot.Some? {
        assert slot.value in ChildrenOf(node.shape);
        assert (most + [Visit(slot.value)])[..|most|] == most;
      } else {
        assert most + [] == most;
      }
    }
  }

  method BranchVisits(node: MptNode, ghost S: set<MptNode>) returns (visits: seq<Task>)
    requires Closed(S) && node in S && node.shape.BranchShape?
    ensures TasksIn(visits, S)
    ensures forall i | 0 <= i < |visits| :: visits[i].Visit?
    ensures forall c | c in ChildrenOf(node.shape) :: Visit(c) in visits
    ensures VisitCost(visits) == 2 * CountFrom(node.tree, 0)
  {
    var children := node.shape.children;
    visits := [];
    for i := 0 to 16
      invariant visits == VisitsUpTo(children, i)
    {
      if children[i].Some? {
        visits := visits + [Visit(children[i].value)];
      }
    }
    VisitsBelong(node, 16, S);
    forall k | 0 <= k < 16 && children[k].Some? ensures Visit(children[k].value) in visits {
      VisitsComplete(children, 16, k);
    }
  }

  /** What holds between any two steps of the walk. */
  ghost predicate Walking(h: Hasher, stack: seq<Task>, done: map<MptNode, Hash>, S: set<MptNode>)
    reads S
  {
    TasksIn(stack, S) && DoneOk(h, done) && CellsOk(h, S) && ChildrenPending(stack, S)
  }

  /** An Emit task: its node is hashed and its cell filled. */
  method EmitTask(h: Hasher, stack: seq<Task>, done: map<MptNode, Hash>, ghost S: set<MptNode>)
    returns (r: Result<Hash, Error>)
    requires Closed(S) && stack != [] && stack[|stack| - 1].Emit? && Walking(h, stack, done, S)
    modifies S
    ensures var n := stack[|stack| - 1].node; r == Ok(HashOf(h, n.tree)) && n.cached.Some?
    ensures Walking(h, stack[..|stack| - 1], done, S)
    ensures FilledCellsKept(S, old(Cells(S)))
  {
    ReadyToEmit(stack, S);
    r := FillCell(h, stack[|stack| - 1].node, done, S);
    StillPendingBelow(stack, S);
  }

  /** A Visit task of a node without a hash: back onto the stack to be emitted, under its children. */
  method VisitTask(h: Hasher, stack: seq<Task>, ghost done: map<MptNode, Hash>, ghost S: set<MptNode>)
    returns (pushed: seq<Task>)
    requires Closed(S) && stack != [] && stack[|stack| - 1].Visit? && Walking(h, stack, done, S)
    ensures Walking(h, pushed, done, S) && StackCost(pushed) < StackCost(stack)
    ensures |pushed| >= |stack| && pushed[0].node == stack[0].node
  {
    var below := stack[..|stack| - 1];
    var n := stack[|stack| - 1].node;
    PushCost(below, Emit(n));
    pushed := PushChildVisits(n, below + [Emit(n)], S);
    VisitKeepsPending(stack, pushed, S);
    assert pushed[0] == (below + [Emit(n)])[0];
  }

  /**
    `compute_hash`: the explicit-stack walk always finishes with the plain recursive hash,
    and leaves every node under it memoised.
   */
  method ComputeHash(h: Hasher, node: MptNode, ghost S: set<MptNode>) returns (r: Result<Hash, Error>)
    requires Closed(S) && node in S && CellsOk(h, S)
    modifies S
    ensures CellsOk(h, S) && Memoised(node, S)
    ensures r == Ok(HashOf(h, node.tree))
    ensures FilledCellsKept(S, old(Cells(S)))
  {
    hide Closed;
    if node.cached.Some? {
      FilledCellMeansMemoised(h, node, S);
      return Ok(node.cached.value);
    }
    var stack := [Visit(node)];
    var done: map<MptNode, Hash> := map[];
    ghost var before := Cells(S);
    while stack != []
      invariant Walking(h, stack, done, S) && FilledCellsKept(S, before)
      invariant node.cached.None? ==> stack != [] && stack[0].node == node
      decreases StackCost(stack)
    {
      var task := stack[|stack| - 1];
      var n := task.node;
      if task.Visit? && n.cached.Some? {
        done := done[n := n.cached.value];
        StillPendingBelow(stack, S);
        stack := stack[..|stack| - 1];
      } else if task.Visit? {
        stack := VisitTask(h, stack, done, S);
      } else {
        var hash := EmitTask(h, stack, done, S);
        if hash.Err? {
          return hash;
        }
        done := done[n := hash.value];
        stack := stack[..|stack| - 1];
      }
    }
    FilledCellMeansMemoised(h, node, S);
    return if node.cached.Some? then Ok(node.cached.value) else Err(InvalidInput);
  }

  lemma ReadyToEmit(stack: seq<Task>, S: set<MptNode>)
    requires stack != [] && stack[|stack| - 1].Emit? && ChildrenPending(stack, S)
    ensures forall c | c in S && c in ChildrenOf(stack[|stack| - 1].node.shape) :: c.cached.Some?
  {
    forall c | c in S && c in ChildrenOf(stack[|stack| - 1].node.shape) ensures c.cached.Some? {
      assert c.cached.Some? || PendingAbove(stack, |stack| - 1, c);
    }
  }

  /** Once the top task's node has its cell filled, the tasks below can do without it. */
  lemma StillPendingBelow(stack: seq<Task>, S: set<MptNode>)
    requires stack != [] && stack[|stack| - 1].node.cached.Some? && ChildrenPending(stack, S)
    ensures ChildrenPending(stack[..|stack| - 1], S)
  {
    var below := stack[..|stack| - 1];
    forall i, c | 0 <= i < |below| && below[i].Emit? && c in S && c in ChildrenOf(below[i].node.shape)
      ensures c.cached.Some? || PendingAbove(below, i, c)
    {
      assert stack[i].Emit?;
      if c.cached.None? {
        assert PendingAbove(stack, i, c);
        var j :| i < j < |stack| && stack[j].node == c;
        assert below[j].node == c;
      }
    }
  }

  lemma VisitKeepsPending(stack: seq<Task>, pushed: seq<Task>, S: set<MptNode>)
    requires stack != [] && ChildrenPending(stack, S)
    requires var below := stack[..|stack| - 1]; var n := stack[|stack| - 1].node;
      && below + [Emit(n)] <= pushed
      && (forall i | |stack| <= i < |pushed| :: pushed[i].Visit?)
      && forall c | c in ChildrenOf(n.shape) :: Visit(c) in pushed[|stack|..]
    ensures ChildrenPending(pushed, S)
  {
    var top := |stack| - 1;
    var n := stack[top].node;
    assert pushed[top] == (stack[..top] + [Emit(n)])[top];
    forall i, c | 0 <= i < |pushed| && pushed[i].Emit? && c in S && c in ChildrenOf(pushed[i].node.shape)
      ensures c.cached.Some? || PendingAbove(pushed, i, c)
    {
      if i == top {
        assert Visit(c) in pushed[|stack|..];
        var j :| 0 <= j < |pushed[|stack|..]| && pushed[|stack|..][j] == Visit(c);
        assert pushed[|stack| + j].node == c;
      } else {
        assert pushed[i] == (stack[..top] + [Emit(n)])[i] == stack[i];
        if c.cached.None? {
          assert PendingAbove(stack, i, c);
          var j :| i < j < |stack| && stack[j].node == c;
          assert pushed[j] == (stack[..top] + [Emit(n)])[j];
          assert pushed[j].node == c;
        }
      }
    }
  }
}
