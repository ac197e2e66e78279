/** The 10 MB budget of the ledger of consensus/src/trie.rs in figures: which insertions and merges are refused. */
module Budget {
  import opened Common
  import opened Trie
  import opened NodeHash
  import opened TrieMerge
  import opened Proof
  import opened Ledger

  // ---------- insertions ----------

  /** What an insertion adds to the recorded size. */
  function Growth(prior: Option<Bytes>, key: Bytes, value: Bytes): int {
    match prior
    case Some(last) => |value| - |last|
    case None => 1024 + 2 * |key| + |value|
  }

  /**
    An insertion succeeds exactly when the key has at most 512 bytes and the recorded size stays within
    10,000,000; an update changes that size by the difference of the values, a new key adds 1024 bytes,
    two for each of its own, and the value's.
   */
  lemma InsertDoneIff(s: State, key: Bytes, value: Bytes)
    requires StateOk(s)
    ensures var grown := s.sizeBytes + Growth(ValueFor(s.root, key), key, value);
      match Insert(s, key, value)
      case Done(t) => |key| <= 512 && grown <= 10_000_000 && t.sizeBytes == grown
      case Failed(e) => if |key| > 512 then e == InvalidInput else grown > 10_000_000 && e == OutOfMemory
  {
    InsertKeepsState(s, key, value, []);
    if s.root.Some? && ValueFor(s.root, key).Some? {
      ValueWithinFootprint(s.root.value, BytesToNibbles(key));
    }
  }

  /** What an insertion costs at most. */
  function Cost(key: Bytes, value: Bytes): nat {
    1024 + 2 * |key| + |value|
  }

  /** A history of insertions alone, none under an over-long key, and what they cost at most. */
  predicate OnlyInserts(hist: History) {
    match hist
    case Fresh => true
    case Inserted(before, key, _) => OnlyInserts(before) && |key| <= 512
    case Merged(_, _) => false
  }

  function TotalCost(hist: History): nat {
    match hist
    case Inserted(before, key, value) => TotalCost(before) + Cost(key, value)
    case _ => 0
  }

  /** The last value inserted under each key. */
  function Written(hist: History): map<Bytes, Bytes> {
    match hist
    case Inserted(before, key, value) => Written(before)[key := value]
    case _ => map[]
  }

  function Stored(m: map<Bytes, Bytes>, key: Bytes): Option<Bytes> {
    if key in m then Some(m[key]) else None
  }

  /** No insertion is refused while the total cost fits the budget, so the ledger answers like a map. */
  lemma {:induction false} AffordableRun(h: Hasher, hist: History, key: Bytes)
    requires OnlyInserts(hist) && TotalCost(hist) <= 10_000_000 && |key| <= 512
    ensures Run(h, hist).sizeBytes <= TotalCost(hist)
    ensures ValueFor(Run(h, hist).root, key) == Stored(Written(hist), key)
  {
    if hist.Inserted? {
      var s := Run(h, hist.before);
      RunOk(h, hist.before);
      AffordableRun(h, hist.before, key);
      InsertDoneIff(s, hist.key, hist.value);
      InsertKeepsState(s, hist.key, hist.value, key);
    }
  }

  // ---------- merges ----------

  /** Path and value bytes of all nodes. */
  function StoredBytes(n: Node): nat
    decreases n, 17
  {
    match n
    case Leaf(path, value) => |path| + |value|
    case Extension(path, child) => |path| + StoredBytes(child)
    case Branch(_, value) => (if value.Some? then |value.value| else 0) + StoredFrom(n, 0)
  }

  function StoredFrom(n: Node, i: nat): nat
    requires n.Branch? && i <= 16
    decreases n, 16 - i
  {
    if i == 16 || i >= |n.children| then 0
    else (if n.children[i].Some? then StoredBytes(n.children[i].value) else 0) + StoredFrom(n, i + 1)
  }

  /** The estimate is 256 bytes for each node and two for each byte of its path and value. */
  lemma {:induction false} EstimateInFigures(n: Node, scale: nat)
    ensures Weigh(n, scale) == 256 * NodeCount(n) + scale * StoredBytes(n)
    decreases n, 17
  {
    match n
    case Leaf(_, _) =>
    case Extension(path, child) =>
      EstimateInFigures(child, scale);
      Distribute(scale, |path|, StoredBytes(child));
    case Branch(_, value) =>
      EstimateFrom(n, 0, scale);
      Distribute(scale, if value.Some? then |value.value| else 0, StoredFrom(n, 0));
  }

  lemma {:induction false} EstimateFrom(n: Node, i: nat, scale: nat)
    requires n.Branch? && i <= 16
    ensures WeighFrom(n, i, scale) == 256 * CountFrom(n, i) + scale * StoredFrom(n, i)
    decreases n, 16 - i
  {
    if i < 16 && i < |n.children| {
      EstimateFrom(n, i + 1, scale);
      if n.children[i].Some? {
        EstimateInFigures(n.children[i].value, scale);
        Distribute(scale, StoredBytes(n.children[i].value), StoredFrom(n, i + 1));
      }
    }
  }

  lemma Distribute(a: nat, b: nat, c: nat)
    ensures a * (b + c) == a * b + a * c
  {
  }

  /** The size a merge records for its tree. */
  function MergedSize(root: Option<Node>): nat {
    if root.None? then 0 else 256 * NodeCount(root.value) + 2 * StoredBytes(root.value)
  }

  /** A merge of different ledgers succeeds exactly when its tree's estimate is within the budget, and records it. */
  lemma MergeDoneIff(h: Hasher, s: State, remote: State)
    requires StateOk(s) && StateOk(remote) && RootHash(h, s.root) != RootHash(h, remote.root)
    ensures var m := MergeRoots(h, s.root, remote.root);
      && m.Ok?
      && match Merge(h, s, remote)
         case Done(t) => t.root == m.value && t.sizeBytes == MergedSize(m.value) <= 10_000_000
         case Failed(e) => MergedSize(m.value) > 10_000_000 && e == OutOfMemory
  {
    if s.root.Some? && remote.root.Some? {
      MergeCanonical(h, s.root.value, remote.root.value);
    }
    var m := MergeRoots(h, s.root, remote.root).value;
    if m.Some? { EstimateInFigures(m.value, 2); }
  }

  /** What re-inserting these entries costs at most. */
  function EntriesCost(entries: seq<Entry>): nat {
    if entries == [] then 0 else 1024 + |entries[0].0| + |entries[0].1| + EntriesCost(entries[1..])
  }

  function RootCost(root: Option<Node>): nat {
    if root.None? then 0 else EntriesCost(Leaves(root.value, []))
  }

  lemma {:induction false} InsertAllFootprint(local: Node, entries: seq<Entry>)
    requires Canonical(local) && forall e | e in entries :: IsNibbles(e.0)
    ensures var r := InsertAll(local, entries);
      r.Ok? && Canonical(r.value) && Footprint(r.value) <= Footprint(local) + EntriesCost(entries)
    decreases |entries|
  {
    if entries != [] {
      var e := entries[0];
      assert e in entries;
      InsertCanonical(local, e.0, e.1);
      InsertFootprint(local, e.0, e.1);
      InsertAllFootprint(InsertInto(local, e.0, e.1).value, entries[1..]);
    }
  }

  /** A trie holds no more than it costs to insert its entries one by one. */
  lemma MergeFootprint(h: Hasher, local: Node, remote: Node)
    requires Canonical(local) && Canonical(remote)
    ensures var r := MergeNodes(h, local, remote);
      r.Ok? && Footprint(r.value) <= Footprint(local) + EntriesCost(Leaves(remote, []))
  {
    EntriesMatchLookups(remote);
    if local.Leaf? && remote.Leaf? && HashOf(h, local) != HashOf(h, remote) {
      assert Leaves(remote, []) == [(remote.path, remote.value)] by { assert [] + remote.path == remote.path; }
      if local.path != remote.path { InsertFootprint(local, remote.path, remote.value); }
    } else {
      InsertAllFootprint(local, Leaves(remote, []));
    }
  }

  lemma EstimateAtMostTwice(n: Node)
    ensures Weigh(n, 2) <= 2 * Footprint(n)
  {
    EstimateInFigures(n, 1);
    EstimateInFigures(n, 2);
  }

  /** A guard a caller can check: this much room on either side, and a merge is never refused. */
  lemma AffordableMerge(h: Hasher, s: State, remote: State)
    requires StateOk(s) && StateOk(remote)
    requires s.root.Some? ==> 2 * (s.sizeBytes + RootCost(remote.root)) <= 10_000_000
    requires s.root.None? ==> 2 * remote.sizeBytes <= 10_000_000
    ensures Merge(h, s, remote).Done?
  {
    hide Footprint, EntriesCost;
    if s.root.Some? && remote.root.Some? {
      MergeCanonical(h, s.root.value, remote.root.value);
      MergeFootprint(h, s.root.value, remote.root.value);
    }
    var m := MergeRoots(h, s.root, remote.root);
    if m.Ok? && m.value.Some? { EstimateAtMostTwice(m.value.value); }
  }
}
