/** Proof construction and size estimation on memo-cell nodes (consensus/src/trie.rs). */
module NodeReads {
  import opened Common
  import opened Trie
  import opened NodeHash
  import opened TrieMerge
  import opened Proof
  import opened MemoNode

  // ---------- build_proof ----------

  datatype Frame =
    | ExtensionFrame(path: Path)
    | BranchFrame(nibble: U8, branch: MptNode)

  ghost predicate FrameOk(f: Frame, S: set<MptNode>) {
    f.BranchFrame? ==> f.nibble < 16 && f.branch in S && f.branch.shape.BranchShape? && Canonical(f.branch.tree)
  }

  ghost function FrameStep(h: Hasher, f: Frame, S: set<MptNode>): ProofStep
    requires Closed(S) && FrameOk(f, S)
  {
    match f
    case ExtensionFrame(path) => ExtensionStep(path)
    case BranchFrame(nibble, branch) =>
      BranchStep(nibble, SiblingHashes(h, branch.tree, nibble), branch.tree.branchValue)
  }

  /** Steps of a frame stack, deepest frame first. */
  ghost function FrameSteps(h: Hasher, frames: seq<Frame>, S: set<MptNode>): seq<ProofStep>
    requires Closed(S) && forall f | f in frames :: FrameOk(f, S)
  {
    if frames == [] then []
    else [FrameStep(h, frames[|frames| - 1], S)] + FrameSteps(h, frames[..|frames| - 1], S)
  }

  function Lengthen(r: Result<Trail, Error>, steps: seq<ProofStep>): Result<Trail, Error> {
    match r
    case Ok(t) => Ok(t.(steps := t.steps + steps))
    case Err(_) => r
  }

  lemma LengthenTwice(r: Result<Trail, Error>, a: seq<ProofStep>, b: seq<ProofStep>)
    ensures Lengthen(Lengthen(r, a), b) == Lengthen(r, a + b)
  {
    if r.Ok? { assert r.value.steps + a + b == r.value.steps + (a + b); }
  }

  lemma PushFrame(h: Hasher, frames: seq<Frame>, f: Frame, S: set<MptNode>)
    requires Closed(S) && FrameOk(f, S) && forall g | g in frames :: FrameOk(g, S)
    ensures forall g | g in frames + [f] :: FrameOk(g, S)
    ensures FrameSteps(h, frames + [f], S) == [FrameStep(h, f, S)] + FrameSteps(h, frames, S)
  {
    assert (frames + [f])[..|frames|] == frames;
  }

  /** The hash of one slot of a branch, read through the child's memo cell; None at the slot left out. */
  method SlotHash(h: Hasher, branch: MptNode, skip: nat, i: nat, ghost S: set<MptNode>)
      returns (r: Result<Option<Hash>, Error>)
    requires Closed(S) && branch in S && branch.shape.BranchShape? && i < 16 && skip <= 16 && CellsOk(h, S)
    modifies S
    ensures CellsOk(h, S) && FilledCellsKept(S, old(Cells(S)))
    ensures r == Ok(SiblingHashes(h, branch.tree, skip)[i])
  {
    var child := branch.shape.children[i];
    if i == skip || child.None? {
      return Ok(None);
    }
    assert child.value in ChildrenOf(branch.shape);
    assert branch.tree.children[i].value == child.value.tree;
    var c := ComputeHash(h, child.value, S);
    return if c.Ok? then Ok(Some(c.value)) else Err(InvalidInput);
  }

  /** Child hashes of a branch with one slot left out. */
  method ChildHashArray(h: Hasher, branch: MptNode, skip: nat, ghost S: set<MptNode>)
      returns (r: Result<HashSlots, Error>)
    requires Closed(S) && branch in S && branch.shape.BranchShape? && skip <= 16 && CellsOk(h, S)
    modifies S
    ensures CellsOk(h, S) && FilledCellsKept(S, old(Cells(S)))
    ensures r == Ok(SiblingHashes(h, branch.tree, skip))
  {
    hide CellsOk, Closed, FilledCellsKept, SiblingHashes;
    BranchIsWide(branch, S);
    ghost var goal: seq<Option<Hash>> := SiblingHashes(h, branch.tree, skip);
    ghost var first := Cells(S);
    var hashes: seq<Option<Hash>> := [];
    for i := 0 to 16
      invariant CellsOk(h, S) && CellsGrew(first, Cells(S))
      invariant hashes == goal[..i]
    {
      ghost var before := Cells(S);
      var c := SlotHash(h, branch, skip, i, S);
      KeptSince(S, first, before);
      if c.Err? {
        return Err(InvalidInput);
      }
      hashes := hashes + [c.value];
    }
    assert hashes == goal;
    GrewIsKept(S, first);
    return Ok(hashes);
  }

  lemma BranchIsWide(branch: MptNode, S: set<MptNode>)
    requires Closed(S) && branch in S && branch.shape.BranchShape?
    ensures branch.tree.Branch? && |branch.tree.children| == 16
  {
  }

  /** Cells filled in a are filled alike in b. */
  ghost predicate CellsGrew(a: map<MptNode, Option<Hash>>, b: map<MptNode, Option<Hash>>) {
    forall n | n in a && a[n].Some? :: n in b && b[n] == a[n]
  }

  lemma KeptSince(S: set<MptNode>, first: map<MptNode, Option<Hash>>, before: map<MptNode, Option<Hash>>)
    requires first.Keys == S && CellsGrew(first, before) && before.Keys == S && FilledCellsKept(S, before)
    ensures CellsGrew(first, Cells(S))
  {
  }

  lemma GrewIsKept(S: set<MptNode>, first: map<MptNode, Option<Hash>>)
    requires first.Keys == S && CellsGrew(first, Cells(S))
    ensures FilledCellsKept(S, first)
  {
  }

  /** `build_proof`: descends with a frame stack, then emits the frames bottom-up. */
  method BuildProof(h: Hasher, node: MptNode, key: Path, ghost S: set<MptNode>) returns (r: Result<Trail, Error>)
    requires Closed(S) && node in S && CellsOk(h, S) && Canonical(node.tree)
    modifies S
    ensures CellsOk(h, S) && FilledCellsKept(S, old(Cells(S)))
    ensures r == BuildTrail(h, node.tree, key)
  {
    hide HashesFrom, IsNibbles, TreesOf;
    var current, rest := node, key;
    var frames: seq<Frame> := [];
    ghost var goal := BuildTrail(h, node.tree, key);
    assert goal.Ok? ==> goal.value.steps + [] == goal.value.steps;
    var bottom: Trail;
    while true
      invariant current in S && Canonical(current.tree) && forall f | f in frames :: FrameOk(f, S)
      invariant CellsOk(h, S) && FilledCellsKept(S, old(Cells(S)))
      invariant goal == Lengthen(BuildTrail(h, current.tree, rest), FrameSteps(h, frames, S))
      decreases current.tree
    {
      match current.shape
      case LeafShape(path, value) =>
        if path != rest {
          return Err(NotFound);
        }
        bottom := Trail(LeafTerminal(path, value), value, []);
        break;
      case ExtensionShape(path, child) =>
        if !(path <= rest) {
          return Err(NotFound);
        }
        assert child in ChildrenOf(current.shape);
        PushFrame(h, frames, ExtensionFrame(path), S);
        LengthenTwice(BuildTrail(h, child.tree, rest[|path|..]), [ExtensionStep(path)], FrameSteps(h, frames, S));
        frames := frames + [ExtensionFrame(path)];
        rest := rest[|path|..];
        current := child;
      case BranchShape(children, value) =>
        if rest == [] {
          if value.None? {
            return Err(NotFound);
          }
          var hashes := ChildHashArray(h, current, 16, S);
          if hashes.Err? {
            return Err(InvalidInput);
          }
          bottom := Trail(BranchValueTerminal(hashes.value, value.value), value.value, []);
          break;
        }
        var nibble := rest[0];
        if nibble > 15 {
          return Err(InvalidInput);
        }
        if children[nibble].None? {
          return Err(NotFound);
        }
        var child := children[nibble].value;
        assert child in ChildrenOf(current.shape) && current.tree.children[nibble].value == child.tree;
        var f := BranchFrame(nibble, current);
        PushFrame(h, frames, f, S);
        LengthenTwice(BuildTrail(h, child.tree, rest[1..]), [FrameStep(h, f, S)], FrameSteps(h, frames, S));
        frames := frames + [f];
        rest := rest[1..];
        current := child;
    }
    r := EmitFrames(h, bottom, frames, S);
  }

  /** One frame as a proof step, its sibling hashes read through the memo cells. */
  method EmitFrame(h: Hasher, f: Frame, ghost S: set<MptNode>) returns (r: Result<ProofStep, Error>)
    requires Closed(S) && CellsOk(h, S) && FrameOk(f, S)
    modifies S
    ensures CellsOk(h, S) && FilledCellsKept(S, old(Cells(S)))
    ensures r == Ok(FrameStep(h, f, S))
  {
    match f
    case ExtensionFrame(path) =>
      r := Ok(ExtensionStep(path));
    case BranchFrame(nibble, branch) =>
      var hashes := ChildHashArray(h, branch, nibble, S);
      r := if hashes.Ok? then Ok(BranchStep(nibble, hashes.value, branch.shape.branchValue)) else Err(InvalidInput);
  }

  lemma PopFrame(h: Hasher, frames: seq<Frame>, i: nat, S: set<MptNode>)
    requires Closed(S) && i < |frames| && forall f | f in frames :: FrameOk(f, S)
    ensures (forall f | f in frames[..i] :: FrameOk(f, S)) && (forall f | f in frames[..i + 1] ::
      FrameOk(f, S)) && FrameOk(frames[i], S)
    ensures FrameSteps(h, frames[..i + 1], S) == [FrameStep(h, frames[i], S)] + FrameSteps(h, frames[..i], S)
  {
    PushFrame(h, frames[..i], frames[i], S);
    assert frames[..i] + [frames[i]] == frames[..i + 1];
  }

  method EmitFrames(h: Hasher, bottom: Trail, frames: seq<Frame>, ghost S: set<MptNode>)
      returns (r: Result<Trail, Error>)
    requires Closed(S) && CellsOk(h, S) && bottom.steps == [] && forall f | f in frames :: FrameOk(f, S)
    modifies S
    ensures CellsOk(h, S) && FilledCellsKept(S, old(Cells(S)))
    ensures r == Lengthen(Ok(bottom), FrameSteps(h, frames, S))
  {
    var steps: seq<ProofStep> := [];
    var i := |frames|;
    ghost var before := Cells(S);
    ghost var goal := FrameSteps(h, frames, S);
    assert frames[..i] == frames;
    while i > 0
      invariant 0 <= i <= |frames|
      invariant CellsOk(h, S) && FilledCellsKept(S, before)
      invariant steps + FrameSteps(h, frames[..i], S) == goal
    {
      i := i - 1;
      PopFrame(h, frames, i, S);
      var step := EmitFrame(h, frames[i], S);
      if step.Err? {
        return Err(InvalidInput);
      }
      ConcatAssoc(steps, [step.value], FrameSteps(h, frames[..i], S));
      steps := steps + [step.value];
    }
    assert steps == goal;
    return Ok(bottom.(steps := bottom.steps + steps));
  }

  // ---------- estimate_node_size ----------

  ghost function StackWeight(stack: seq<MptNode>): nat {
    if stack == [] then 0 else Weigh(stack[|stack| - 1].tree, 2) + StackWeight(stack[..|stack| - 1])
  }

  ghost function StackNodes(stack: seq<MptNode>): nat {
    if stack == [] then 0 else NodeCount(stack[|stack| - 1].tree) + StackNodes(stack[..|stack| - 1])
  }

  lemma NoWeight()
    ensures StackWeight([]) == 0 && StackNodes([]) == 0
  {
  }

  lemma PushWeight(stack: seq<MptNode>, n: MptNode)
    ensures StackWeight(stack + [n]) == Weigh(n.tree, 2) + StackWeight(stack)
    ensures StackNodes(stack + [n]) == NodeCount(n.tree) + StackNodes(stack)
  {
    assert (stack + [n])[..|stack|] == stack;
  }

  ghost predicate AllIn(stack: seq<MptNode>, S: set<MptNode>) {
    forall i | 0 <= i < |stack| :: stack[i] in S
  }

  /** The size a walk from this root reports. */
  function EstimateOf(root: Option<Node>): nat {
    if root.None? then 0 else Min(Weigh(root.value, 2), U64_MAX)
  }

  /** `estimate_node_size`: an explicit-stack walk, saturating at the word size. */
  method EstimateNodeSize(node: MptNode?, ghost S: set<MptNode>) returns (total: nat)
    requires Closed(S) && (node != null ==> node in S)
    ensures total == EstimateOf(if node == null then None else Some(node.tree))
  {
    hide Closed, StackWeight, StackNodes, Weigh;
    total := 0;
    if node == null {
      return;
    }
    NoWeight();
    var stack: seq<MptNode> := [node];
    PushWeight([], node);
    assert stack == [] + [node];
    ghost var goal := EstimateOf(Some(node.tree));
    while stack != []
      invariant AllIn(stack, S)
      invariant total <= U64_MAX && Min(total + StackWeight(stack), U64_MAX) == goal
      decreases StackNodes(stack)
    {
      var own;
      own, stack := EstimateOne(stack, S);
      total := SatAdd(total, own);
    }
  }

  /** The top node's own estimate; its children go onto the stack. */
  method EstimateOne(stack: seq<MptNode>, ghost S: set<MptNode>) returns (own: nat, rest: seq<MptNode>)
    requires Closed(S) && AllIn(stack, S) && stack != []
    ensures AllIn(rest, S)
    ensures own + StackWeight(rest) == StackWeight(stack) && StackNodes(rest) < StackNodes(stack)
  {
    hide WeighFrom, CountFrom, TreesOf;
    var current := stack[|stack| - 1];
    var below := stack[..|stack| - 1];
    assert current in S && current.tree == TreeOf(current.shape);
    match current.shape
    case LeafShape(path, value) =>
      own, rest := 2 * (|path| + |value|) + NODE_OVERHEAD, below;
    case ExtensionShape(path, child) =>
      own := 2 * |path| + NODE_OVERHEAD;
      assert child in ChildrenOf(current.shape);
      PushWeight(below, child);
      rest := below + [child];
    case BranchShape(_, value) =>
      own := NODE_OVERHEAD + 2 * (if value.Some? then |value.value| else 0);
      rest := PushAll(current, below, S);
  }

  method PushAll(n: MptNode, below: seq<MptNode>, ghost S: set<MptNode>) returns (stack: seq<MptNode>)
    requires Closed(S) && n in S && n.shape.BranchShape? && AllIn(below, S)
    ensures AllIn(stack, S)
    ensures StackWeight(stack) == WeighFrom(n.tree, 0, 2) + StackWeight(below)
    ensures StackNodes(stack) == CountFrom(n.tree, 0) + StackNodes(below)
  {
    stack := below;
    var i := 0;
    while i < 16
      invariant 0 <= i <= 16
      invariant AllIn(stack, S)
      invariant StackWeight(stack) + WeighFrom(n.tree, i, 2) == WeighFrom(n.tree, 0, 2) + StackWeight(below)
      invariant StackNodes(stack) + CountFrom(n.tree, i) == CountFrom(n.tree, 0) + StackNodes(below)
    {
      if n.shape.children[i].Some? {
        var c := n.shape.children[i].value;
        assert c in ChildrenOf(n.shape);
        PushWeight(stack, c);
        stack := stack + [c];
      }
      i := i + 1;
    }
  }
}
