/** Merkle inclusion proofs: consensus/src/proof.rs and `build_proof` of consensus/src/trie.rs. */
module Proof {
  import opened Common
  import opened Trie
  import opened NodeHash

  // [Option<Hash32>; 16]
  type HashSlots = s: seq<Option<Hash>> | |s| == 16
    witness [None, None, None, None, None, None, None, None, None, None, None, None, None, None, None, None]

  datatype ProofTerminal =
    | LeafTerminal(path: Path, value: Bytes)
    | BranchValueTerminal(children: HashSlots, value: Bytes)

  datatype ProofStep =
    | ExtensionStep(path: Path)
    | BranchStep(nibble: U8, children: HashSlots, branchValue: Option<Bytes>)

  datatype MerkleProof = MerkleProof(
    key: Bytes,
    value: Bytes,
    leafPath: Path,
    terminal: ProofTerminal,
    steps: seq<ProofStep>,
    siblings: seq<Hash>)

  // ---------- verification ----------

  function TerminalHash(h: Hasher, t: ProofTerminal): Hash {
    match t
    case LeafTerminal(path, value) => h(LeafPayload(path, value))
    case BranchValueTerminal(children, value) => h(BranchPayload(children, Some(value)))
  }

  function StepHash(h: Hasher, step: ProofStep, current: Hash): Result<Hash, Error> {
    match step
    case ExtensionStep(path) => if path == [] then Err(InvalidInput) else Ok(h(ExtensionPayload(path, current)))
    case BranchStep(nibble, children, value) =>
      if nibble > 15 then Err(InvalidInput) else Ok(h(BranchPayload(children[nibble := Some(current)], value)))
  }

  /** Fold the ancestor steps, terminal first. */
  function ApplySteps(h: Hasher, steps: seq<ProofStep>, current: Hash): Result<Hash, Error> {
    if steps == [] then Ok(current)
    else
      var next :- StepHash(h, steps[0], current);
      ApplySteps(h, steps[1..], next)
  }

  function Verdict(h: Hasher, proof: MerkleProof, expectedRoot: Hash): Result<bool, Error> {
    if proof.terminal.value != proof.value then Ok(false)
    else
      var root :- ApplySteps(h, proof.steps, TerminalHash(h, proof.terminal));
      Ok(root == expectedRoot)
  }

  /** `verify_proof`. */
  method VerifyProof(h: Hasher, proof: MerkleProof, expectedRoot: Hash) returns (r: Result<bool, Error>)
    ensures r == Verdict(h, proof, expectedRoot)
  {
    if proof.terminal.value != proof.value {
      return Ok(false);
    }
    var current := TerminalHash(h, proof.terminal);
    ghost var goal := ApplySteps(h, proof.steps, current);
    assert proof.steps[0..] == proof.steps;
    for i := 0 to |proof.steps|
      invariant ApplySteps(h, proof.steps[i..], current) == goal
    {
      var step := proof.steps[i];
      assert proof.steps[i..][0] == step && proof.steps[i..][1..] == proof.steps[i + 1..];
      match step
      case ExtensionStep(path) =>
        if path == [] {
          return Err(InvalidInput);
        }
        current := h(ExtensionPayload(path, current));
      case BranchStep(nibble, children, value) =>
        if nibble > 15 {
          return Err(InvalidInput);
        }
        var kids := children[nibble := Some(current)];
        current := h(BranchPayload(kids, value));
    }
    return Ok(current == expectedRoot);
  }

  // ---------- the path a proof spells ----------

  function StepLabel(step: ProofStep): Path {
    match step
    case ExtensionStep(path) => path
    case BranchStep(nibble, _, _) => [nibble]
  }

  /** Step labels read root-first, followed by `rest`. */
  function SpelledPath(steps: seq<ProofStep>, rest: Path): Path {
    if steps == [] then rest else SpelledPath(steps[1..], StepLabel(steps[0]) + rest)
  }

  function TerminalPath(t: ProofTerminal): Path {
    match t
    case LeafTerminal(path, _) => path
    case BranchValueTerminal(_, _) => []
  }

  function ProofPath(proof: MerkleProof): Path {
    SpelledPath(proof.steps, TerminalPath(proof.terminal))
  }

  /** A step that hashes to a node's hash is that node, with the step's child below it. */
  lemma StepMatchesNode(h: Hasher, step: ProofStep, current: Hash, n: Node) returns (sub: Node)
    requires CollisionFree(h) && StepHash(h, step, current) == Ok(HashOf(h, n))
    ensures HashOf(h, sub) == current
    ensures forall rest: Path :: Lookup(n, StepLabel(step) + rest) == Lookup(sub, rest)
  {
    match step
    case ExtensionStep(path) =>
      assert n.Extension? && n.path == path;
      sub := n.child;
      assert forall rest: Path :: (path + rest)[|path|..] == rest;
    case BranchStep(nibble, children, value) =>
      assert n.Branch? && ChildHashes(h, n) == children[nibble := Some(current)];
      assert ChildHashes(h, n)[nibble] == Some(current);
      sub := n.children[nibble].value;
      assert forall rest: Path :: ([nibble] + rest)[1..] == rest;
  }

  lemma {:induction false} StepsLeadToSubtree(h: Hasher, steps: seq<ProofStep>, current: Hash, n: Node)
      returns (sub: Node)
    requires CollisionFree(h) && ApplySteps(h, steps, current) == Ok(HashOf(h, n))
    ensures HashOf(h, sub) == current
    ensures forall rest: Path :: Lookup(n, SpelledPath(steps, rest)) == Lookup(sub, rest)
  {
    if steps == [] {
      sub := n;
    } else {
      var above := StepsLeadToSubtree(h, steps[1..], StepHash(h, steps[0], current).value, n);
      sub := StepMatchesNode(h, steps[0], current, above);
      forall rest: Path ensures Lookup(n, SpelledPath(steps, rest)) == Lookup(sub, rest) {
        assert Lookup(n, SpelledPath(steps[1..], StepLabel(steps[0]) + rest)) ==
          Lookup(above, StepLabel(steps[0]) + rest);
      }
    }
  }

  /** Soundness: an accepted proof's value is stored at the nibble path the proof spells. */
  lemma ProofSound(h: Hasher, root: Option<Node>, proof: MerkleProof)
    requires CollisionFree(h)
    requires Verdict(h, proof, RootHash(h, root)) == Ok(true)
    ensures root.Some? && Lookup(root.value, ProofPath(proof)) == Some(proof.value)
  {
    var start := TerminalHash(h, proof.terminal);
    if root.None? {
      StepsNeverEmpty(h, proof.steps, proof.terminal);
    } else {
      var sub := StepsLeadToSubtree(h, proof.steps, start, root.value);
      match proof.terminal
      case LeafTerminal(path, value) => assert sub == Leaf(path, value);
      case BranchValueTerminal(children, value) => assert sub.Branch? && sub.branchValue == Some(value);
    }
  }

  lemma StepsNeverEmpty(h: Hasher, steps: seq<ProofStep>, t: ProofTerminal)
    requires CollisionFree(h)
    ensures ApplySteps(h, steps, TerminalHash(h, t)) != Ok(h(EmptyTrie))
  {
    var current := TerminalHash(h, t);
    assert current != h(EmptyTrie);
    StepsKeepNonEmpty(h, steps, current);
  }

  lemma {:induction false} StepsKeepNonEmpty(h: Hasher, steps: seq<ProofStep>, current: Hash)
    requires CollisionFree(h) && current != h(EmptyTrie)
    ensures ApplySteps(h, steps, current) != Ok(h(EmptyTrie))
  {
    if steps != [] && StepHash(h, steps[0], current).Ok? {
      StepsKeepNonEmpty(h, steps[1..], StepHash(h, steps[0], current).value);
    }
  }

  /**
    The verdict ignores the proof's key field, although the documentation says the proof
    authenticates it; a caller gets key binding by also checking that ProofPath is the key's nibbles.
   */
  lemma KeyFieldUnchecked(h: Hasher, root: Option<Node>, proof: MerkleProof, key: Bytes)
    requires CollisionFree(h)
    ensures Verdict(h, proof.(key := key), RootHash(h, root)) == Verdict(h, proof, RootHash(h, root))
    ensures Verdict(h, proof, RootHash(h, root)) == Ok(true) && ProofPath(proof) == BytesToNibbles(key)
      ==> root.Some? && Lookup(root.value, BytesToNibbles(key)) == Some(proof.value)
  {
    if Verdict(h, proof, RootHash(h, root)) == Ok(true) {
      ProofSound(h, root, proof);
    }
  }

  // ---------- construction ----------

  datatype Trail = Trail(terminal: ProofTerminal, value: Bytes, steps: seq<ProofStep>)

  /** Hashes of a branch's children, with one slot left out. */
  function SiblingHashes(h: Hasher, n: Node, skip: nat): (s: HashSlots)
    requires n.Branch? && |n.children| == 16 && skip <= 16
  {
    if skip < 16 then ChildHashes(h, n)[skip := None] else ChildHashes(h, n)
  }

  /** The recursive form of `build_proof`; steps come out terminal first. */
  function BuildTrail(h: Hasher, n: Node, key: Path): Result<Trail, Error>
    requires Canonical(n)
    decreases n
  {
    match n
    case Leaf(path, value) =>
      if path == key then Ok(Trail(LeafTerminal(path, value), value, [])) else Err(NotFound)
    case Extension(path, child) =>
      if !(path <= key) then Err(NotFound)
      else
        var t :- BuildTrail(h, child, key[|path|..]);
        Ok(t.(steps := t.steps + [ExtensionStep(path)]))
    case Branch(children, value) =>
      if key == [] then
        if value.None? then Err(NotFound)
        else Ok(Trail(BranchValueTerminal(SiblingHashes(h, n, 16), value.value), value.value, []))
      else if key[0] > 15 then Err(InvalidInput)
      else if children[key[0]].None? then Err(NotFound)
      else
        var t :- BuildTrail(h, children[key[0]].value, key[1..]);
        Ok(t.(steps := t.steps + [BranchStep(key[0], SiblingHashes(h, n, key[0]), value)]))
  }

  lemma {:induction false} ApplyStepsSnoc(h: Hasher, steps: seq<ProofStep>, last: ProofStep, current: Hash)
    ensures ApplySteps(h, steps + [last], current)
         == (match ApplySteps(h, steps, current) case Ok(c) => StepHash(h, last, c) case Err(e) => Err(e))
    ensures forall rest: Path :: SpelledPath(steps + [last], rest) == StepLabel(last) + SpelledPath(steps, rest)
    decreases |steps|
  {
    var all := steps + [last];
    if steps == [] {
      assert all[1..] == [];
    } else {
      assert all[1..] == steps[1..] + [last];
      var next := StepHash(h, steps[0], current);
      ApplyStepsSnoc(h, steps[1..], last, if next.Ok? then next.value else current);
    }
  }

  /** Completeness: a trail exists exactly for stored keys, carries the value, spells the key and hashes to the root. */
  lemma {:induction false} TrailCorrect(h: Hasher, n: Node, key: Path)
    requires Canonical(n) && IsNibbles(key)
    ensures var r := BuildTrail(h, n, key);
      match Lookup(n, key)
      case None => r == Err(NotFound)
      case Some(v) =>
        && r.Ok? && r.value.value == v == r.value.terminal.value
        && ApplySteps(h, r.value.steps, TerminalHash(h, r.value.terminal)) == Ok(HashOf(h, n))
        && SpelledPath(r.value.steps, TerminalPath(r.value.terminal)) == key
    decreases n
  {
    hide HashesFrom, TwoEntries;
    match n
    case Leaf(path, value) =>
    case Extension(path, child) =>
      if path <= key {
        assert key == path + key[|path|..];
        TrailCorrect(h, child, key[|path|..]);
        var t := BuildTrail(h, child, key[|path|..]);
        if t.Ok? {
          ApplyStepsSnoc(h, t.value.steps, ExtensionStep(path), TerminalHash(h, t.value.terminal));
        }
      }
    case Branch(children, value) =>
      if key != [] && children[key[0]].Some? {
        assert key == [key[0]] + key[1..];
        TrailCorrect(h, children[key[0]].value, key[1..]);
        var t := BuildTrail(h, children[key[0]].value, key[1..]);
        if t.Ok? {
          var step := BranchStep(key[0], SiblingHashes(h, n, key[0]), value);
          ApplyStepsSnoc(h, t.value.steps, step, TerminalHash(h, t.value.terminal));
          var childHash := HashOf(h, children[key[0]].value);
          assert SiblingHashes(h, n, key[0])[key[0] := Some(childHash)] == ChildHashes(h, n);
        }
      }
  }

  /** Present slots of a hash array other than `skip`, in index order. */
  function PresentHashes(slots: seq<Option<Hash>>, skip: nat, from: nat): seq<Hash>
    requires from <= |slots|
    decreases |slots| - from
  {
    if from == |slots| then []
    else (if from != skip && slots[from].Some? then [slots[from].value] else []) + PresentHashes(slots, skip, from + 1)
  }

  function CountPresent(slots: seq<Option<Hash>>, skip: nat, from: nat, end: nat): nat
    requires from <= end <= |slots|
    decreases end - from
  {
    if from == end then 0
    else (if from != skip && slots[from].Some? then 1 else 0) + CountPresent(slots, skip, from + 1, end)
  }

  /** Every present slot but the skipped one is listed, behind those with a smaller index. */
  lemma {:induction false} PresentInOrder(slots: seq<Option<Hash>>, skip: nat, from: nat, i: nat)
    requires from <= |slots|
    ensures |PresentHashes(slots, skip, from)| == CountPresent(slots, skip, from, |slots|)
    ensures from <= i < |slots| && i != skip && slots[i].Some? ==>
      var k := CountPresent(slots, skip, from, i);
      k < |PresentHashes(slots, skip, from)| && PresentHashes(slots, skip, from)[k] == slots[i].value
    decreases |slots| - from
  {
    if from < |slots| { PresentInOrder(slots, skip, from + 1, i); }
  }

  function SiblingsAt(step: ProofStep): seq<Hash> {
    match step
    case ExtensionStep(_) => []
    case BranchStep(nibble, children, _) => PresentHashes(children, nibble, 0)
  }

  function StepSiblings(steps: seq<ProofStep>): seq<Hash> {
    if steps == [] then [] else SiblingsAt(steps[0]) + StepSiblings(steps[1..])
  }

  function FlatSiblings(t: Trail): seq<Hash> {
    StepSiblings(t.steps)
      + if t.terminal.BranchValueTerminal? then PresentHashes(t.terminal.children, 16, 0) else []
  }

  /** `prove` on a trie as a value. */
  function ProofFor(h: Hasher, root: Option<Node>, key: Bytes): Result<MerkleProof, Error>
    requires root.Some? ==> Canonical(root.value)
  {
    if |key| > MAX_KEY_BYTES then Err(InvalidInput)
    else if root.None? then Err(NotFound)
    else
      var t :- BuildTrail(h, root.value, BytesToNibbles(key));
      Ok(MerkleProof(key, t.value, TerminalPath(t.terminal), t.terminal, t.steps, FlatSiblings(t)))
  }

  /** `get` on a trie as a value. */
  function ValueFor(root: Option<Node>, key: Bytes): Option<Bytes> {
    if |key| > MAX_KEY_BYTES || root.None? then None else Lookup(root.value, BytesToNibbles(key))
  }

  /** `prove` succeeds exactly when `get` does; its proof carries that value, names that key and verifies. */
  lemma ProofComplete(h: Hasher, root: Option<Node>, key: Bytes)
    requires root.Some? ==> Canonical(root.value)
    requires |key| <= MAX_KEY_BYTES
    ensures var r := ProofFor(h, root, key);
      match ValueFor(root, key)
      case None => r == Err(NotFound)
      case Some(v) =>
        && r.Ok? && r.value.key == key && r.value.value == v && ProofPath(r.value) == BytesToNibbles(key)
        && Verdict(h, r.value, RootHash(h, root)) == Ok(true)
  {
    if root.Some? {
      TrailCorrect(h, root.value, BytesToNibbles(key));
    }
  }

  /** In a ledger of one key, that key's proof is accepted although its key field names any other one. */
  lemma ForeignKeyAccepted(h: Hasher, key: Bytes, value: Bytes, other: Bytes)
    requires |key| <= MAX_KEY_BYTES && other != key
    ensures var root := Some(Leaf(BytesToNibbles(key), value));
      var r := ProofFor(h, root, key);
      r.Ok? && Verdict(h, r.value.(key := other), RootHash(h, root)) == Ok(true) && ValueFor(root, other) == None
  {
    hide Verdict, BuildTrail, RootHash, BytesToNibbles, HashOf;
    var root := Some(Leaf(BytesToNibbles(key), value));
    assert Canonical(root.value);
    ProofComplete(h, root, key);
    KeyIgnored(h, ProofFor(h, root, key).value, other, RootHash(h, root));
    DifferentNibbles(other, key);
  }

  lemma KeyIgnored(h: Hasher, proof: MerkleProof, key: Bytes, root: Hash)
    ensures Verdict(h, proof.(key := key), root) == Verdict(h, proof, root)
  {
  }

  lemma DifferentNibbles(a: Bytes, b: Bytes)
    ensures BytesToNibbles(a) == BytesToNibbles(b) ==> a == b
  {
    if BytesToNibbles(a) == BytesToNibbles(b) { BytesToNibblesInjective(a, b); }
  }
}
