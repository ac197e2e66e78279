/**
  Island merge of two tries and the byte accounting of the ledger
  (consensus/src/trie.rs), on trees as values.
 */
module TrieMerge {
  import opened Common
  import opened Trie
  import opened NodeHash

  // ---------- collecting leaves ----------

  type Entry = (Path, Bytes)

  /** Stored entries in nibble order, each under its full path. */
  function Leaves(n: Node, prefix: Path): seq<Entry>
    decreases n, 17
  {
    match n
    case Leaf(path, value) => [(prefix + path, value)]
    case Extension(path, child) => Leaves(child, prefix + path)
    case Branch(_, value) => (if value.Some? then [(prefix, value.value)] else []) + LeavesFrom(n, 0, prefix)
  }

  function LeavesFrom(n: Node, i: nat, prefix: Path): seq<Entry>
    requires n.Branch? && i <= 16
    decreases n, 16 - i
  {
    if i == 16 || i >= |n.children| then []
    else (if n.children[i].Some? then Leaves(n.children[i].value, prefix + [i]) else []) + LeavesFrom(n, i + 1, prefix)
  }

  function NodeCount(n: Node): nat
    decreases n, 17
  {
    match n
    case Leaf(_, _) => 1
    case Extension(_, child) => 1 + NodeCount(child)
    case Branch(_, _) => 1 + CountFrom(n, 0)
  }

  function CountFrom(n: Node, i: nat): nat
    requires n.Branch? && i <= 16
    decreases n, 16 - i
  {
    if i == 16 || i >= |n.children| then 0
    else (if n.children[i].Some? then NodeCount(n.children[i].value) else 0) + CountFrom(n, i + 1)
  }

  /** The collected entries are exactly the trie's lookups. */
  lemma {:induction false} LeavesSound(n: Node, prefix: Path, e: Entry)
    requires Canonical(n) && e in Leaves(n, prefix)
    ensures prefix <= e.0 && Lookup(n, e.0[|prefix|..]) == Some(e.1)
    decreases n, 17
  {
    match n
    case Leaf(path, value) =>
    case Extension(path, child) =>
      LeavesSound(child, prefix + path, e);
      assert e.0[|prefix|..] == path + e.0[|prefix + path|..];
    case Branch(_, value) =>
      if e in LeavesFrom(n, 0, prefix) {
        LeavesFromSound(n, 0, prefix, e);
      }
  }

  lemma {:induction false} LeavesFromSound(n: Node, i: nat, prefix: Path, e: Entry)
    requires Canonical(n) && n.Branch? && i <= 16 && e in LeavesFrom(n, i, prefix)
    ensures prefix <= e.0 && Lookup(n, e.0[|prefix|..]) == Some(e.1)
    decreases n, 16 - i
  {
    if n.children[i].Some? && e in Leaves(n.children[i].value, prefix + [i]) {
      LeavesSound(n.children[i].value, prefix + [i], e);
      assert e.0[|prefix|..] == [i] + e.0[|prefix| + 1..];
    } else {
      LeavesFromSound(n, i + 1, prefix, e);
    }
  }

  lemma {:induction false} LeavesComplete(n: Node, prefix: Path, k: Path, v: Bytes)
    requires Canonical(n) && Lookup(n, k) == Some(v)
    ensures (prefix + k, v) in Leaves(n, prefix)
    decreases n, 17
  {
    match n
    case Leaf(path, value) =>
    case Extension(path, child) =>
      LeavesComplete(child, prefix + path, k[|path|..], v);
      assert prefix + k == (prefix + path) + k[|path|..];
    case Branch(children, value) =>
      if k == [] {
        assert prefix + k == prefix;
        assert (prefix, v) in [(prefix, v)];
      } else {
        LeavesComplete(children[k[0]].value, prefix + [k[0]], k[1..], v);
        assert prefix + k == (prefix + [k[0]]) + k[1..];
        LeavesFromContains(n, 0, k[0], prefix, (prefix + k, v));
      }
  }

  lemma {:induction false} LeavesFromContains(n: Node, i: nat, j: nat, prefix: Path, e: Entry)
    requires n.Branch? && i <= j < 16 && j < |n.children| && n.children[j].Some?
    requires e in Leaves(n.children[j].value, prefix + [j])
    ensures e in LeavesFrom(n, i, prefix)
    decreases j - i
  {
    if i < j {
      LeavesFromContains(n, i + 1, j, prefix, e);
    }
  }

  // ---------- merging ----------

  function InsertAll(local: Node, entries: seq<Entry>): Result<Node, Error>
    decreases entries
  {
    if entries == [] then Ok(local)
    else
      var next :- InsertInto(local, entries[0].0, entries[0].1);
      InsertAll(next, entries[1..])
  }

  /** Lexicographic order on byte strings. */
  predicate BytesLess(a: Bytes, b: Bytes) {
    if b == [] then false
    else if a == [] then true
    else a[0] < b[0] || (a[0] == b[0] && BytesLess(a[1..], b[1..]))
  }

  function MergeNodes(h: Hasher, local: Node, remote: Node): Result<Node, Error> {
    if HashOf(h, local) == HashOf(h, remote) then Ok(local)
    else if local.Leaf? && remote.Leaf? then
      if local.path == remote.path then
        Ok(Leaf(local.path, if BytesLess(local.value, remote.value) then remote.value else local.value))
      else InsertInto(local, remote.path, remote.value)
    else InsertAll(local, Leaves(remote, []))
  }

  lemma {:induction false} InsertAllLookup(local: Node, entries: seq<Entry>, k: Path)
    requires Canonical(local)
    requires forall e | e in entries :: IsNibbles(e.0)
    requires forall e, f | e in entries && f in entries :: e.0 == f.0 ==> e == f
    ensures var r := InsertAll(local, entries);
      && r.Ok? && Canonical(r.value)
      && (forall v :: (k, v) in entries ==> Lookup(r.value, k) == Some(v))
      && ((forall v :: (k, v) !in entries) ==> Lookup(r.value, k) == Lookup(local, k))
    decreases |entries|
  {
    if entries != [] {
      var e := entries[0];
      assert e in entries;
      InsertCanonical(local, e.0, e.1);
      InsertLookup(local, e.0, e.1, k);
      var next := InsertInto(local, e.0, e.1).value;
      assert forall f | f in entries[1..] :: f in entries;
      InsertAllLookup(next, entries[1..], k);
      assert entries == [e] + entries[1..];
      if k == e.0 {
        assert forall v :: (k, v) in entries ==> (k, v) == e;
        assert forall v :: (k, v) in entries[1..] ==> (k, v) == e;
      }
    }
  }

  /** The value merging puts at a key: the remote one wins, except between two lone leaves. */
  function MergedValue(local: Node, remote: Node, k: Path): Option<Bytes> {
    var a, b := Lookup(local, k), Lookup(remote, k);
    if b.None? then a
    else if a.Some? && local.Leaf? && remote.Leaf? && !BytesLess(a.value, b.value) then a
    else b
  }

  lemma StoredKeysAreNibbles(n: Node, k: Path)
    requires Canonical(n) && Lookup(n, k).Some?
    ensures IsNibbles(k)
    decreases n
  {
    match n
    case Leaf(path, _) =>
    case Extension(path, child) =>
      StoredKeysAreNibbles(child, k[|path|..]);
      assert k == path + k[|path|..];
    case Branch(children, _) =>
      if k != [] {
        StoredKeysAreNibbles(children[k[0]].value, k[1..]);
        assert k == [k[0]] + k[1..];
      }
  }

  lemma {:induction false} BytesLessTrichotomy(a: Bytes, b: Bytes)
    ensures BytesLess(a, b) || BytesLess(b, a) || a == b
    ensures !(BytesLess(a, b) && BytesLess(b, a))
    ensures !BytesLess(a, a)
  {
    if a != [] {
      BytesLessTrichotomy(a[1..], if b == [] then [] else b[1..]);
      if b != [] {
        assert a == [a[0]] + a[1..] && b == [b[0]] + b[1..];
      }
    }
  }

  /** a is smaller when it is a proper prefix of b, or has the smaller byte where they first differ. */
  lemma {:induction false} BytesLessIsLexical(a: Bytes, b: Bytes)
    ensures var n := CommonPrefixLen(a, b); BytesLess(a, b) <==> n < |b| && (n == |a| || a[n] < b[n])
  {
    if a != [] && b != [] { BytesLessIsLexical(a[1..], b[1..]); }
  }

  lemma EntriesMatchLookups(n: Node)
    requires Canonical(n)
    ensures forall e | e in Leaves(n, []) :: Lookup(n, e.0) == Some(e.1) && IsNibbles(e.0)
  {
    forall e | e in Leaves(n, []) ensures Lookup(n, e.0) == Some(e.1) && IsNibbles(e.0) {
      LeavesSound(n, [], e);
      assert e.0[0..] == e.0;
      StoredKeysAreNibbles(n, e.0);
    }
  }

  /** Merging never fails and keeps the canonical shape, whatever the hash function. */
  lemma MergeCanonical(h: Hasher, local: Node, remote: Node)
    requires Canonical(local) && Canonical(remote)
    ensures var r := MergeNodes(h, local, remote); r.Ok? && Canonical(r.value)
  {
    if local.Leaf? && remote.Leaf? {
      InsertCanonical(local, remote.path, remote.value);
    } else {
      EntriesMatchLookups(remote);
      InsertAllLookup(local, Leaves(remote, []), []);
    }
  }

  /** Merging gives each key its MergedValue. */
  lemma MergeLookup(h: Hasher, local: Node, remote: Node, k: Path)
    requires CollisionFree(h) && Canonical(local) && Canonical(remote)
    ensures var r := MergeNodes(h, local, remote);
      r.Ok? && Canonical(r.value) && Lookup(r.value, k) == MergedValue(local, remote, k)
  {
    MergeCanonical(h, local, remote);
    if HashOf(h, local) == HashOf(h, remote) {
      HashInjective(h, local, remote);
    } else if local.Leaf? && remote.Leaf? {
      if local.path != remote.path {
        InsertLookup(local, remote.path, remote.value, k);
      }
    } else {
      EntriesMatchLookups(remote);
      InsertAllLookup(local, Leaves(remote, []), k);
      if Lookup(remote, k).Some? {
        LeavesComplete(remote, [], k, Lookup(remote, k).value);
        assert [] + k == k;
      }
    }
  }

  ghost predicate AgreeOnSharedKeys(a: Node, b: Node) {
    forall k: Path :: Lookup(a, k).Some? && Lookup(b, k).Some? ==> Lookup(a, k) == Lookup(b, k)
  }

  /**
    Merging in either direction gives the same trie exactly when the two sides agree
    on their shared keys or each side is a lone leaf.
   */
  lemma MergeCommutes(h: Hasher, a: Node, b: Node)
    requires CollisionFree(h) && Canonical(a) && Canonical(b)
    ensures MergeNodes(h, a, b) == MergeNodes(h, b, a) <==> AgreeOnSharedKeys(a, b) || (a.Leaf? && b.Leaf?)
  {
    hide MergeNodes, Trie.Lookup;
    MergeLookup(h, a, b, []);
    MergeLookup(h, b, a, []);
    var ab, ba := MergeNodes(h, a, b).value, MergeNodes(h, b, a).value;
    if AgreeOnSharedKeys(a, b) || (a.Leaf? && b.Leaf?) {
      forall k: Path ensures Lookup(ab, k) == Lookup(ba, k) {
        MergeLookup(h, a, b, k);
        MergeLookup(h, b, a, k);
        if Lookup(a, k).Some? && Lookup(b, k).Some? {
          BytesLessTrichotomy(Lookup(a, k).value, Lookup(b, k).value);
        }
      }
      CanonicalUnique(ab, ba);
    } else {
      var k: Path :| Lookup(a, k).Some? && Lookup(b, k).Some? && Lookup(a, k) != Lookup(b, k);
      MergeLookup(h, a, b, k);
      MergeLookup(h, b, a, k);
      assert Lookup(ab, k) != Lookup(ba, k);
    }
  }

  /** Under every shared key the merged trie holds a value no smaller than either side's. */
  ghost predicate KeepsMaximum(local: Node, remote: Node, merged: Node) {
    forall k: Path :: Lookup(local, k).Some? && Lookup(remote, k).Some? ==>
      && Lookup(merged, k).Some?
      && !BytesLess(Lookup(merged, k).value, Lookup(local, k).value)
      && !BytesLess(Lookup(merged, k).value, Lookup(remote, k).value)
  }

  /** The remote side has a smaller value under a shared key. */
  ghost predicate SmallerRemote(local: Node, remote: Node) {
    exists k: Path ::
      Lookup(local, k).Some? && Lookup(remote, k).Some? && BytesLess(Lookup(remote, k).value, Lookup(local, k).value)
  }

  /** Merging keeps the larger of conflicting values exactly between lone leaves, or if no remote value is smaller. */
  lemma MaximumKeptIff(h: Hasher, local: Node, remote: Node)
    requires CollisionFree(h) && Canonical(local) && Canonical(remote)
    ensures MergeNodes(h, local, remote).Ok?
    ensures KeepsMaximum(local, remote, MergeNodes(h, local, remote).value) <==>
      (local.Leaf? && remote.Leaf?) || !SmallerRemote(local, remote)
  {
    hide MergeNodes, Trie.Lookup, BytesLess;
    MergeLookup(h, local, remote, []);
    var merged := MergeNodes(h, local, remote).value;
    if (local.Leaf? && remote.Leaf?) || !SmallerRemote(local, remote) {
      forall k: Path | Lookup(local, k).Some? && Lookup(remote, k).Some?
        ensures Lookup(merged, k).Some?
        ensures !BytesLess(Lookup(merged, k).value, Lookup(local, k).value)
        ensures !BytesLess(Lookup(merged, k).value, Lookup(remote, k).value)
      {
        MergeLookup(h, local, remote, k);
        BytesLessTrichotomy(Lookup(local, k).value, Lookup(remote, k).value);
        BytesLessTrichotomy(Lookup(remote, k).value, Lookup(remote, k).value);
      }
    } else {
      var k: Path :| Lookup(local, k).Some? && Lookup(remote, k).Some? &&
        BytesLess(Lookup(remote, k).value, Lookup(local, k).value);
      MergeLookup(h, local, remote, k);
    }
  }

  /** Two keys inserted one after the other into an empty trie. */
  function TwoKeys(value: Bytes): Result<Node, Error> {
    InsertInto(Leaf(BytesToNibbles([0]), value), BytesToNibbles([16]), [9])
  }

  lemma TwoKeysStored(value: Bytes)
    ensures var r := TwoKeys(value); r.Ok? && Canonical(r.value) && !r.value.Leaf?
    ensures Lookup(TwoKeys(value).value, BytesToNibbles([0])) == Some(value)
  {
    var a, b := BytesToNibbles([0]), BytesToNibbles([16]);
    var leaf := Leaf(a, value);
    assert a != b by { assert a[0] == 0 && b[0] == 1; }
    InsertCanonical(leaf, b, [9]);
    InsertLookup(leaf, b, [9], a);
    InsertLookup(leaf, b, [9], b);
  }

  /** Conflicting values, and more than a lone leaf: each direction keeps the value of the other side. */
  lemma DirectionDecides(h: Hasher)
    requires CollisionFree(h)
    ensures TwoKeys([1]).Ok? && TwoKeys([2]).Ok?
    ensures var a, b, k := TwoKeys([1]).value, TwoKeys([2]).value, BytesToNibbles([0]);
      var ab, ba := MergeNodes(h, a, b), MergeNodes(h, b, a);
      ab.Ok? && ba.Ok? && Lookup(ab.value, k) == Some([2]) && Lookup(ba.value, k) == Some([1])
  {
    TwoKeysStored([1]);
    TwoKeysStored([2]);
    hide TwoKeys, Canonical, Lookup, MergeNodes, BytesToNibbles;
    var a, b, k := TwoKeys([1]).value, TwoKeys([2]).value, BytesToNibbles([0]);
    MergeLookup(h, a, b, k);
    MergeLookup(h, b, a, k);
  }

  // ---------- byte accounting ----------

  const NODE_OVERHEAD := 256

  /** Node overheads plus `scale` times the path and value bytes. */
  function Weigh(n: Node, scale: nat): nat
    decreases n, 17
  {
    match n
    case Leaf(path, value) => scale * (|path| + |value|) + NODE_OVERHEAD
    case Extension(path, child) => scale * |path| + NODE_OVERHEAD + Weigh(child, scale)
    case Branch(_, value) => NODE_OVERHEAD + scale * (if value.Some? then |value.value| else 0) + WeighFrom(n, 0, scale)
  }

  function WeighFrom(n: Node, i: nat, scale: nat): nat
    requires n.Branch? && i <= 16
    decreases n, 16 - i
  {
    if i == 16 || i >= |n.children| then 0
    else (if n.children[i].Some? then Weigh(n.children[i].value, scale) else 0) + WeighFrom(n, i + 1, scale)
  }

  /** Bytes the trie really holds: one overhead per node plus its path and value. */
  function Footprint(n: Node): nat {
    Weigh(n, 1)
  }

  lemma {:induction false} EstimateCoversFootprint(n: Node)
    ensures Footprint(n) <= Weigh(n, 2)
    decreases n, 17
  {
    match n
    case Leaf(_, _) =>
    case Extension(_, child) => EstimateCoversFootprint(child);
    case Branch(_, _) => EstimateCoversFootprintFrom(n, 0);
  }

  lemma {:induction false} EstimateCoversFootprintFrom(n: Node, i: nat)
    requires n.Branch? && i <= 16
    ensures WeighFrom(n, i, 1) <= WeighFrom(n, i, 2)
    decreases n, 16 - i
  {
    if i < 16 && i < |n.children| {
      if n.children[i].Some? { EstimateCoversFootprint(n.children[i].value); }
      EstimateCoversFootprintFrom(n, i + 1);
    }
  }

  /** Replacing one slot of a branch changes its weight by that slot only. */
  lemma {:induction false} WeighSlot(n: Node, m: Node, i: nat, slot: nat)
    requires n.Branch? && m.Branch? && |n.children| == |m.children| == 16 && i <= 16 && slot < 16
    requires forall j | 0 <= j < 16 && j != slot :: n.children[j] == m.children[j]
    ensures WeighFrom(m, i, 1) - WeighFrom(n, i, 1)
         == if slot < i then 0 else SlotWeight(m.children[slot]) - SlotWeight(n.children[slot])
    decreases 16 - i
  {
    if i < 16 {
      WeighSlot(n, m, i + 1, slot);
    }
  }

  function SlotWeight(c: Option<Node>): nat {
    if c.Some? then Footprint(c.value) else 0
  }

  lemma EmptyBranchWeight()
    ensures Footprint(Branch(NoChildren(), None)) == NODE_OVERHEAD
  {
    EmptyFrom(0);
  }

  lemma {:induction false} EmptyFrom(i: nat)
    requires i <= 16
    ensures WeighFrom(Branch(NoChildren(), None), i, 1) == 0
    decreases 16 - i
  {
    if i < 16 { EmptyFrom(i + 1); }
  }

  lemma PlaceLeafWeight(b: Node, rest: Path, value: Bytes)
    requires PartialBranch(b) && IsNibbles(rest) && !Occupied(b.children, b.branchValue, SlotOf(rest))
    ensures var r := PlaceLeaf(b, rest, value);
      r.Ok? && Footprint(r.value) <= Footprint(b) + NODE_OVERHEAD + |rest| + |value|
  {
    if rest != [] {
      WeighSlot(b, PlaceLeaf(b, rest, value).value, 0, rest[0]);
    } else {
      WeighSlot(b, PlaceLeaf(b, rest, value).value, 0, 0);
    }
  }

  /**
    One insertion costs at most four node overheads, the key's nibbles and the value;
    an update costs exactly the difference of the two values.
   */
  lemma {:induction false} InsertFootprint(n: Node, key: Path, value: Bytes)
    requires Canonical(n) && IsNibbles(key)
    ensures InsertInto(n, key, value).Ok?
    ensures var r := Footprint(InsertInto(n, key, value).value); var prior := Lookup(n, key);
      if prior.Some? then r == Footprint(n) - |prior.value| + |value|
      else r <= Footprint(n) + 4 * NODE_OVERHEAD + |key| + |value|
    decreases n
  {
    InsertCanonical(n, key, value);
    match n
    case Leaf(path, prior) =>
      if path != key { SplitLeafWeight(path, prior, key, value, CommonPrefixLen(path, key)); }
    case Extension(path, child) =>
      var shared := CommonPrefixLen(path, key);
      if shared == |path| {
        assert path == key[..shared] && path <= key;
        InsertFootprint(child, key[shared..], value);
      } else {
        SplitExtensionWeight(path, child, key, value, shared);
      }
    case Branch(children, prior) =>
      if key != [] {
        var m := InsertInto(n, key, value).value;
        if children[key[0]].Some? {
          InsertFootprint(children[key[0]].value, key[1..], value);
        }
        WeighSlot(n, m, 0, key[0]);
      } else {
        WeighSlot(n, InsertInto(n, key, value).value, 0, 0);
      }
  }

  lemma WrapWeight(prefix: Path, n: Node)
    ensures Footprint(Wrap(prefix, n)) == Footprint(n) + if prefix == [] then 0 else NODE_OVERHEAD + |prefix|
  {
  }

  lemma SplitLeafWeight(path: Path, prior: Bytes, key: Path, value: Bytes, n: nat)
    requires IsNibbles(path) && IsNibbles(key) && path != key && PartAt(path, key, n)
    ensures var r := SplitLeaf(path, prior, key, value, n);
      r.Ok? && Footprint(r.value) <= Footprint(Leaf(path, prior)) + 4 * NODE_OVERHEAD + |key| + |value|
  {
    var e := Branch(NoChildren(), None);
    EmptyBranchWeight();
    PlaceLeafShape(e, path[n..], prior);
    PlaceLeafWeight(e, path[n..], prior);
    var b := PlaceLeaf(e, path[n..], prior).value;
    SplitSlotsDiffer(path, key, n);
    PlaceLeafShape(b, key[n..], value);
    PlaceLeafWeight(b, key[n..], value);
    WrapWeight(path[..n], PlaceLeaf(b, key[n..], value).value);
  }

  lemma SingletonBranchWeight(slot: nat, n: Node)
    requires slot < 16
    ensures Footprint(Branch(NoChildren()[slot := Some(n)], None)) == NODE_OVERHEAD + Footprint(n)
  {
    EmptyBranchWeight();
    WeighSlot(Branch(NoChildren(), None), Branch(NoChildren()[slot := Some(n)], None), 0, slot);
  }

  lemma SplitExtensionWeight(path: Path, child: Node, key: Path, value: Bytes, n: nat)
    requires Canonical(Extension(path, child)) && IsNibbles(key) && PartAt(path, key, n) && n < |path|
    ensures var r := SplitExtension(path, child, key, value, n);
      r.Ok? && Footprint(r.value) <= Footprint(Extension(path, child)) + 4 * NODE_OVERHEAD + |key| + |value|
  {
    var existing := Wrap(path[n + 1..], child);
    var b := Branch(NoChildren()[path[n] := Some(existing)], None);
    SingletonBranchWeight(path[n], existing);
    WrapWeight(path[n + 1..], child);
    assert Canonical(existing);
    PlaceLeafShape(b, key[n..], value);
    PlaceLeafWeight(b, key[n..], value);
    WrapWeight(path[..n], PlaceLeaf(b, key[n..], value).value);
  }
}
