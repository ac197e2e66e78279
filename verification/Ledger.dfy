/**
  The Merkle-Patricia ledger of consensus/src/trie.rs: the class with its cached root and
  size budget, its state as a value, and what holds over whole insert/merge histories.
 */
module Ledger {
  import opened Common
  import opened Trie
  import opened NodeHash
  import opened TrieMerge
  import opened Proof
  import opened MemoNode
  import opened NodeOps
  import opened NodeReads

  const MAX_LEDGER_SIZE := 10_000_000

  // ---------- the ledger as a value ----------

  datatype State = State(root: Option<Node>, sizeBytes: nat)

  datatype Outcome = Done(state: State) | Failed(error: Error)

  /** Size after an insertion, as the budget check computes it. */
  function NextSize(s: State, key: Bytes, value: Bytes): nat {
    var prior := ValueFor(s.root, key);
    if prior.Some? then SatAdd(SatSub(s.sizeBytes, |prior.value|), |value|)
    else SatAdd(s.sizeBytes, 4 * NODE_OVERHEAD + 2 * |key| + |value|)
  }

  function Insert(s: State, key: Bytes, value: Bytes): Outcome {
    if |key| > MAX_KEY_BYTES then Failed(InvalidInput)
    else if NextSize(s, key, value) > MAX_LEDGER_SIZE then Failed(OutOfMemory)
    else if s.root.None? then Done(State(Some(Leaf(BytesToNibbles(key), value)), NextSize(s, key, value)))
    else
      match InsertInto(s.root.value, BytesToNibbles(key), value)
      case Ok(n) => Done(State(Some(n), NextSize(s, key, value)))
      case Err(e) => Failed(e)
  }

  function MergeRoots(h: Hasher, local: Option<Node>, remote: Option<Node>): Result<Option<Node>, Error> {
    if local.None? then Ok(remote)
    else if remote.None? then Ok(local)
    else
      var n :- MergeNodes(h, local.value, remote.value);
      Ok(Some(n))
  }

  function Merge(h: Hasher, s: State, remote: State): Outcome {
    if RootHash(h, s.root) == RootHash(h, remote.root) then Done(s)
    else
      match MergeRoots(h, s.root, remote.root)
      case Err(e) => Failed(e)
      case Ok(root) =>
        if EstimateOf(root) > MAX_LEDGER_SIZE then Failed(OutOfMemory)
        else Done(State(root, EstimateOf(root)))
  }

  function RootFootprint(root: Option<Node>): nat {
    if root.None? then 0 else Footprint(root.value)
  }

  /** Canonical tree, and a size that covers every node, path and value byte yet fits the budget. */
  ghost predicate StateOk(s: State) {
    && (s.root.Some? ==> Canonical(s.root.value))
    && RootFootprint(s.root) <= s.sizeBytes <= MAX_LEDGER_SIZE
  }

  /** A successful insertion keeps StateOk and changes one key; the only failures are the two checks up front. */
  lemma InsertKeepsState(s: State, key: Bytes, value: Bytes, k: Bytes)
    requires StateOk(s)
    ensures match Insert(s, key, value)
            case Done(t) =>
              && StateOk(t)
              && (|k| <= MAX_KEY_BYTES ==> ValueFor(t.root, k) == if k == key then Some(value) else ValueFor(s.root, k))
            case Failed(e) =>
              || (|key| > MAX_KEY_BYTES && e == InvalidInput)
              || (NextSize(s, key, value) > MAX_LEDGER_SIZE && e == OutOfMemory)
  {
    if BytesToNibbles(k) == BytesToNibbles(key) {
      BytesToNibblesInjective(k, key);
    }
    if s.root.Some? {
      InsertCanonical(s.root.value, BytesToNibbles(key), value);
      InsertLookup(s.root.value, BytesToNibbles(key), value, BytesToNibbles(k));
      InsertFootprint(s.root.value, BytesToNibbles(key), value);
      if ValueFor(s.root, key).Some? {
        ValueWithinFootprint(s.root.value, BytesToNibbles(key));
      }
    }
  }

  /** A stored value is part of the footprint. */
  lemma {:induction false} ValueWithinFootprint(n: Node, key: Path)
    requires Canonical(n) && Lookup(n, key).Some?
    ensures |Lookup(n, key).value| <= Footprint(n)
    decreases n
  {
    match n
    case Leaf(_, _) =>
    case Extension(path, child) =>
      ValueWithinFootprint(child, key[|path|..]);
    case Branch(children, value) =>
      if key != [] {
        ValueWithinFootprint(children[key[0]].value, key[1..]);
        ChildWithinFootprint(n, 0, key[0]);
      }
  }

  lemma {:induction false} ChildWithinFootprint(n: Node, i: nat, slot: nat)
    requires n.Branch? && |n.children| == 16 && i <= slot < 16 && n.children[slot].Some?
    ensures Footprint(n.children[slot].value) <= WeighFrom(n, i, 1)
    decreases slot - i
  {
    if i < slot {
      ChildWithinFootprint(n, i + 1, slot);
    }
  }

  /** The value a merge puts at a nibble path. */
  function MergedRootValue(local: Option<Node>, remote: Option<Node>, k: Path): Option<Bytes> {
    if local.None? then (if remote.None? then None else Lookup(remote.value, k))
    else if remote.None? then Lookup(local.value, k)
    else MergedValue(local.value, remote.value, k)
  }

  function RootLookup(root: Option<Node>, k: Path): Option<Bytes> {
    if root.None? then None else Lookup(root.value, k)
  }

  lemma RootHashInjective(h: Hasher, a: Option<Node>, b: Option<Node>)
    requires CollisionFree(h)
    ensures RootHash(h, a) == RootHash(h, b) <==> a == b
  {
    if a.Some? && b.Some? && HashOf(h, a.value) == HashOf(h, b.value) {
      HashInjective(h, a.value, b.value);
    }
  }

  /** A successful merge keeps StateOk; it can only fail on the budget. */
  lemma MergeKeepsState(h: Hasher, s: State, remote: State)
    requires StateOk(s) && StateOk(remote)
    ensures match Merge(h, s, remote)
            case Done(t) => StateOk(t)
            case Failed(e) => e == OutOfMemory
  {
    if s.root.Some? && remote.root.Some? {
      MergeCanonical(h, s.root.value, remote.root.value);
    }
    var m := MergeRoots(h, s.root, remote.root);
    if m.Ok? && m.value.Some? {
      EstimateCoversFootprint(m.value.value);
    }
  }

  /** A successful merge gives every key its merged value. */
  lemma MergeValues(h: Hasher, s: State, remote: State, k: Path)
    requires CollisionFree(h) && StateOk(s) && StateOk(remote) && Merge(h, s, remote).Done?
    ensures RootLookup(Merge(h, s, remote).state.root, k) == MergedRootValue(s.root, remote.root, k)
  {
    RootHashInjective(h, s.root, remote.root);
    if s.root.Some? && remote.root.Some? {
      MergeLookup(h, s.root.value, remote.root.value, k);
    }
  }

  // ---------- histories ----------

  /** Any ledger is built from empty by insertions and by merging other ledgers; failed steps change nothing. */
  datatype History =
    | Fresh
    | Inserted(before: History, key: Bytes, value: Bytes)
    | Merged(local: History, remote: History)

  function After(s: State, o: Outcome): State {
    if o.Done? then o.state else s
  }

  function Run(h: Hasher, hist: History): State {
    match hist
    case Fresh => State(None, 0)
    case Inserted(before, key, value) => After(Run(h, before), Insert(Run(h, before), key, value))
    case Merged(local, remote) => After(Run(h, local), Merge(h, Run(h, local), Run(h, remote)))
  }

  /** Over every history the tree is canonical and the recorded size covers it within the budget. */
  lemma {:induction false} RunOk(h: Hasher, hist: History)
    ensures StateOk(Run(h, hist))
  {
    match hist
    case Fresh =>
    case Inserted(before, key, value) =>
      RunOk(h, before);
      InsertKeepsState(Run(h, before), key, value, []);
    case Merged(local, remote) =>
      RunOk(h, local);
      RunOk(h, remote);
      MergeKeepsState(h, Run(h, local), Run(h, remote));
  }

  lemma RootsDetermined(a: Option<Node>, b: Option<Node>)
    requires (a.Some? ==> Canonical(a.value)) && (b.Some? ==> Canonical(b.value))
    requires forall k: Path :: RootLookup(a, k) == RootLookup(b, k)
    ensures a == b
  {
    if a.Some? && b.Some? {
      forall k: Path ensures Lookup(a.value, k) == Lookup(b.value, k) {
        assert RootLookup(a, k) == RootLookup(b, k);
      }
      CanonicalUnique(a.value, b.value);
    } else if a.Some? {
      var k := StoredKey(a.value);
      assert RootLookup(a, k) == RootLookup(b, k);
    } else if b.Some? {
      var k := StoredKey(b.value);
      assert RootLookup(a, k) == RootLookup(b, k);
    }
  }

  /** Only byte keys of permitted length are ever stored. */
  ghost predicate StoresByteKeys(root: Option<Node>) {
    forall k: Path :: RootLookup(root, k).Some? ==>
      exists key: Bytes :: |key| <= MAX_KEY_BYTES && BytesToNibbles(key) == k
  }

  lemma InsertStoresByteKeys(s: State, key: Bytes, value: Bytes)
    requires StateOk(s) && StoresByteKeys(s.root) && Insert(s, key, value).Done?
    ensures StoresByteKeys(Insert(s, key, value).state.root)
  {
    var r := Insert(s, key, value).state.root;
    forall k: Path | RootLookup(r, k).Some?
      ensures exists b: Bytes :: |b| <= MAX_KEY_BYTES && BytesToNibbles(b) == k
    {
      if k != BytesToNibbles(key) {
        if s.root.Some? {
          InsertLookup(s.root.value, BytesToNibbles(key), value, k);
        }
        assert RootLookup(s.root, k).Some?;
      }
    }
  }

  lemma MergeStoresByteKeys(h: Hasher, s: State, remote: State)
    requires CollisionFree(h) && StateOk(s) && StateOk(remote)
    requires StoresByteKeys(s.root) && StoresByteKeys(remote.root) && Merge(h, s, remote).Done?
    ensures StoresByteKeys(Merge(h, s, remote).state.root)
  {
    var r := Merge(h, s, remote).state.root;
    forall k: Path | RootLookup(r, k).Some?
      ensures RootLookup(s.root, k).Some? || RootLookup(remote.root, k).Some?
    {
      MergeValues(h, s, remote, k);
    }
  }

  lemma {:induction false} RunStoresByteKeys(h: Hasher, hist: History)
    requires CollisionFree(h)
    ensures StoresByteKeys(Run(h, hist).root)
  {
    match hist
    case Fresh =>
    case Inserted(before, key, value) =>
      RunOk(h, before);
      RunStoresByteKeys(h, before);
      if Insert(Run(h, before), key, value).Done? {
        InsertStoresByteKeys(Run(h, before), key, value);
      }
    case Merged(local, remote) =>
      RunOk(h, local);
      RunOk(h, remote);
      RunStoresByteKeys(h, local);
      RunStoresByteKeys(h, remote);
      if Merge(h, Run(h, local), Run(h, remote)).Done? {
        MergeStoresByteKeys(h, Run(h, local), Run(h, remote));
      }
  }

  /**
    History independence: two histories whose ledgers answer every `get` alike hold the
    same tree, hence the same root hash.
   */
  lemma HistoryIndependence(h: Hasher, a: History, b: History)
    requires CollisionFree(h)
    requires forall key: Bytes :: ValueFor(Run(h, a).root, key) == ValueFor(Run(h, b).root, key)
    ensures Run(h, a).root == Run(h, b).root
    ensures RootHash(h, Run(h, a).root) == RootHash(h, Run(h, b).root)
  {
    RunOk(h, a);
    RunOk(h, b);
    RunStoresByteKeys(h, a);
    RunStoresByteKeys(h, b);
    var ra, rb := Run(h, a).root, Run(h, b).root;
    forall k: Path ensures RootLookup(ra, k) == RootLookup(rb, k) {
      if RootLookup(ra, k).Some? || RootLookup(rb, k).Some? {
        var key: Bytes :| |key| <= MAX_KEY_BYTES && BytesToNibbles(key) == k;
        assert ValueFor(ra, key) == ValueFor(rb, key);
      }
    }
    RootsDetermined(ra, rb);
  }

  ghost predicate RootsAgree(a: Option<Node>, b: Option<Node>) {
    a.Some? && b.Some? ==> AgreeOnSharedKeys(a.value, b.value)
  }

  ghost predicate BothLoneLeaves(a: Option<Node>, b: Option<Node>) {
    a.Some? && b.Some? && a.value.Leaf? && b.value.Leaf?
  }

  /**
    Merging two ledgers whose shared keys agree, or which are single leaves, gives the same root in
    either direction, or the budget refuses both. Whenever both directions succeed, the roots are
    equal in no other case.
   */
  lemma MergeEitherDirection(h: Hasher, a: State, b: State)
    requires CollisionFree(h) && StateOk(a) && StateOk(b)
    ensures RootsAgree(a.root, b.root) || BothLoneLeaves(a.root, b.root) ==>
      match (Merge(h, a, b), Merge(h, b, a))
      case (Done(s), Done(t)) => s.root == t.root
      case (Failed(e), Failed(f)) => e == f == OutOfMemory
      case _ => false
    ensures Merge(h, a, b).Done? && Merge(h, b, a).Done? ==>
      (Merge(h, a, b).state.root == Merge(h, b, a).state.root <==>
        RootsAgree(a.root, b.root) || BothLoneLeaves(a.root, b.root))
  {
    RootHashInjective(h, a.root, b.root);
    MergeKeepsState(h, a, b);
    MergeKeepsState(h, b, a);
    if a.root.Some? && b.root.Some? {
      MergeCommutes(h, a.root.value, b.root.value);
    }
  }

  /** On ledgers that agree on shared keys, merging is the union of their entries. */
  lemma MergeIsUnion(h: Hasher, a: State, b: State, key: Bytes)
    requires CollisionFree(h) && StateOk(a) && StateOk(b) && RootsAgree(a.root, b.root)
    requires Merge(h, a, b).Done?
    ensures ValueFor(Merge(h, a, b).state.root, key)
         == if ValueFor(a.root, key).Some? then ValueFor(a.root, key) else ValueFor(b.root, key)
  {
    MergeValues(h, a, b, BytesToNibbles(key));
  }

  // ---------- the class ----------

  class MerklePatriciaTrie {
    var root: MptNode?
    var cachedRoot: Hash
    var sizeBytes: nat
    ghost var nodes: set<MptNode>

    /** The ledger's state as a value. */
    ghost function View(): State
      reads this
    {
      State(if root == null then None else Some(root.tree), sizeBytes)
    }

    /** State invariant, a current cached root, correct cells and a fully memoised tree. */
    ghost predicate Valid(h: Hasher)
      reads this, nodes
    {
      && Closed(nodes) && CellsOk(h, nodes)
      && StateOk(View())
      && cachedRoot == RootHash(h, View().root)
      && (root != null ==> root in nodes && Memoised(root, nodes))
    }

    constructor (h: Hasher)
      ensures Valid(h) && View() == State(None, 0) && nodes == {}
    {
      root := null;
      cachedRoot := h(EmptyTrie);
      sizeBytes := 0;
      nodes := {};
    }

    method Get(h: Hasher, key: Bytes) returns (r: Option<Bytes>)
      requires Valid(h)
      ensures r == ValueFor(View().root, key)
    {
      if |key| > MAX_KEY_BYTES || root == null {
        return None;
      }
      r := GetFrom(root, BytesToNibbles(key), nodes);
    }

    /** The tree of a successful insertion, as nodes; the ledger itself is not touched yet. */
    method NewRoot(h: Hasher, key: Bytes, value: Bytes) returns (r: Result<MptNode, Error>, ghost T: set<MptNode>)
      requires Valid(h) && Insert(View(), key, value).Done?
      ensures nodes <= T && Closed(T) && CellsOk(h, T) && forall n | n in T && n !in nodes :: fresh(n)
      ensures r.Ok? && r.value in T && Some(r.value.tree) == Insert(View(), key, value).state.root
    {
      if root == null {
        var leaf;
        leaf, T := NewNode(LeafShape(BytesToNibbles(key), value), nodes);
        r := Ok(leaf);
      } else {
        r, T := InsertIntoNode(root, BytesToNibbles(key), value, nodes);
      }
      EmptyCellsAreFine(h, nodes, T);
    }

    /** Hash a new tree and install it together with its size. */
    method Install(h: Hasher, newRoot: MptNode?, nextSize: nat, ghost T: set<MptNode>) returns (r: Result<(), Error>)
      requires nodes <= T && Closed(T) && CellsOk(h, T) && (newRoot != null ==> newRoot in T)
      requires StateOk(State(if newRoot == null then None else Some(newRoot.tree), nextSize))
      modifies this, T
      ensures Valid(h) && r == Ok(()) && nodes == T
      ensures View() == State(if newRoot == null then None else Some(newRoot.tree), nextSize)
    {
      hide ChildrenOf, Closed, Memoised, TreesOf, Trie.Canonical, Weigh;
      var hash: Result<Hash, Error>;
      if newRoot == null {
        hash := Ok(h(EmptyTrie));
      } else {
        hash := ComputeHash(h, newRoot, T);
      }
      if hash.Err? {
        return Err(InvalidInput);
      }
      nodes := T;
      cachedRoot := hash.value;
      root := newRoot;
      sizeBytes := nextSize;
      return Ok(());
    }

    /** `insert`: the outcome Insert describes; on failure the ledger is unchanged. */
    method InsertKey(h: Hasher, key: Bytes, value: Bytes) returns (r: Result<(), Error>)
      requires Valid(h)
      modifies this, nodes
      ensures Valid(h) && nodes >= old(nodes) && fresh(nodes - old(nodes))
      ensures match Insert(old(View()), key, value)
              case Done(t) => r == Ok(()) && View() == t
              case Failed(e) => r == Err(e) && View() == old(View()) && root == old(root)
    {
      if |key| > MAX_KEY_BYTES {
        return Err(InvalidInput);
      }
      var prior := Get(h, key);
      var nextSize := if prior.Some? then SatAdd(SatSub(sizeBytes, |prior.value|), |value|)
                      else SatAdd(sizeBytes, 4 * NODE_OVERHEAD + 2 * |key| + |value|);
      if nextSize > MAX_LEDGER_SIZE {
        return Err(OutOfMemory);
      }
      InsertKeepsState(View(), key, value, []);
      var newRoot, T := NewRoot(h, key, value);
      if newRoot.Err? {
        return Err(InvalidInput);
      }
      r := Install(h, newRoot.value, nextSize, T);
    }

    /** `prove`. */
    method Prove(h: Hasher, key: Bytes) returns (r: Result<MerkleProof, Error>)
      requires Valid(h)
      modifies nodes
      ensures Valid(h) && r == ProofFor(h, View().root, key)
    {
      if |key| > MAX_KEY_BYTES {
        return Err(InvalidInput);
      }
      if root == null {
        return Err(NotFound);
      }
      var t := BuildProof(h, root, BytesToNibbles(key), nodes);
      FilledCellMeansMemoised(h, root, nodes);
      if t.Err? {
        return Err(t.error);
      }
      var siblings := CollectSiblings(t.value);
      return Ok(MerkleProof(key, t.value.value, TerminalPath(t.value.terminal), t.value.terminal, t.value.steps,
        siblings));
    }

    /** The merged tree on cloned nodes, so that neither ledger is changed if the merge fails. */
    method MergedNodes(h: Hasher, remote: MerklePatriciaTrie)
      returns (r: Result<MptNode?, Error>, ghost T: set<MptNode>)
      requires Valid(h) && remote.Valid(h) && remote != this && nodes !! remote.nodes
      modifies nodes, remote.nodes
      ensures Valid(h) && remote.Valid(h)
      ensures nodes <= T && Closed(T) && CellsOk(h, T) && forall n | n in T && n !in nodes :: fresh(n)
      ensures match MergeRoots(h, View().root, remote.View().root)
              case Ok(m) => r.Ok? && (if m.None? then r.value == null else r.value in T && r.value.tree == m.value)
              case Err(e) => r == Err(e)
    {
      T := nodes;
      if root == null && remote.root == null {
        return Ok(null), T;
      } else if root == null {
        var c;
        c, T := Clone(h, remote.root, remote.nodes, nodes);
        return Ok(c), T;
      } else if remote.root == null {
        var c;
        c, T := Clone(h, root, nodes, nodes);
        return Ok(c), T;
      }
      var local;
      local, T := Clone(h, root, nodes, nodes);
      var m;
      m, T := MergeNodesAt(h, local, remote.root, T, remote.nodes);
      StillMemoised(h);
      remote.StillMemoised(h);
      return if m.Ok? then Ok(m.value) else Err(m.error), T;
    }

    lemma StillMemoised(h: Hasher)
      requires Closed(nodes) && CellsOk(h, nodes) && (root != null ==> root in nodes && root.cached.Some?)
      ensures root != null ==> Memoised(root, nodes)
    {
      if root != null {
        FilledCellMeansMemoised(h, root, nodes);
      }
    }

    /** `merge_with`: the outcome Merge describes; on failure the ledger is unchanged, and the remote always is. */
    method MergeWith(h: Hasher, remote: MerklePatriciaTrie) returns (r: Result<(), Error>)
      requires Valid(h) && remote.Valid(h) && remote != this && nodes !! remote.nodes
      modifies this, nodes, remote.nodes
      ensures Valid(h) && remote.Valid(h) && nodes !! remote.nodes
      ensures remote.View() == old(remote.View())
      ensures match Merge(h, old(View()), old(remote.View()))
              case Done(t) => r == Ok(()) && View() == t
              case Failed(e) => r == Err(e) && View() == old(View()) && root == old(root)
    {
      hide ChildrenOf, Closed, EstimateOf, HashOf, Memoised, MergeNodes, RootHash, TreeOf, Trie.Canonical, Weigh;
      if cachedRoot == remote.cachedRoot {
        return Ok(());
      }
      MergeKeepsState(h, View(), remote.View());
      var merged, T := MergedNodes(h, remote);
      if merged.Err? {
        return Err(merged.error);
      }
      var newSize := EstimateNodeSize(merged.value, T);
      if newSize > MAX_LEDGER_SIZE {
        return Err(OutOfMemory);
      }
      r := Install(h, merged.value, newSize, T);
    }
  }

  lemma StepSiblingsAt(steps: seq<ProofStep>, i: nat)
    requires i < |steps|
    ensures StepSiblings(steps[i..]) == SiblingsAt(steps[i]) + StepSiblings(steps[i + 1..])
  {
    assert steps[i..][1..] == steps[i + 1..];
  }

  method CollectStepSiblings(steps: seq<ProofStep>) returns (siblings: seq<Hash>)
    ensures siblings == StepSiblings(steps)
  {
    siblings := [];
    ghost var goal := StepSiblings(steps);
    assert steps[0..] == steps;
    for i := 0 to |steps|
      invariant siblings + StepSiblings(steps[i..]) == goal
    {
      StepSiblingsAt(steps, i);
      var found := CollectAt(steps[i]);
      ConcatAssoc(siblings, found, StepSiblings(steps[i + 1..]));
      siblings := siblings + found;
    }
  }

  method CollectSiblings(t: Trail) returns (siblings: seq<Hash>)
    ensures siblings == FlatSiblings(t)
  {
    siblings := CollectStepSiblings(t.steps);
    if t.terminal.BranchValueTerminal? {
      var found := CollectPresent(t.terminal.children, 16);
      siblings := siblings + found;
    }
  }

  method CollectAt(step: ProofStep) returns (found: seq<Hash>)
    ensures found == SiblingsAt(step)
  {
    found := [];
    if step.BranchStep? {
      found := CollectPresent(step.children, step.nibble);
    }
  }

  method CollectPresent(slots: HashSlots, skip: nat) returns (found: seq<Hash>)
    ensures found == PresentHashes(slots, skip, 0)
  {
    found := [];
    ghost var goal := PresentHashes(slots, skip, 0);
    var i := 0;
    while i < 16
      invariant 0 <= i <= 16
      invariant found + PresentHashes(slots, skip, i) == goal
    {
      var here := if i != skip && slots[i].Some? then [slots[i].value] else [];
      ConcatAssoc(found, here, PresentHashes(slots, skip, i + 1));
      found := found + here;
      i := i + 1;
    }
  }
}
