/**
  Convergence of the document CRDT (consensus/src/crdt.rs): the walk never reorders, and
  replicas, merges and version-vector deltas agree on what they show.
 */
module CrdtSync {
  import opened Common
  import opened CrdtState
  import opened CrdtWalk

  // ---------- integrating never reorders ----------

  /** a is what remains of b after striking out some elements. */
  predicate Subsequence(a: seq<ItemId>, b: seq<ItemId>)
    decreases |b|
  {
    a == [] || (b != [] && (
      (a[0] == b[0] && Subsequence(a[1..], b[1..])) || Subsequence(a, b[1..])))
  }

  lemma {:induction false} SubsequenceRefl(a: seq<ItemId>)
    ensures Subsequence(a, a)
    decreases |a|
  {
    if a != [] { SubsequenceRefl(a[1..]); }
  }

  lemma {:induction false} SubsequenceSkip(a: seq<ItemId>, w: seq<ItemId>, b: seq<ItemId>)
    requires Subsequence(a, b)
    ensures Subsequence(a, w + b)
    decreases |w|
  {
    if w == [] {
      assert w + b == b;
    } else {
      SubsequenceSkip(a, w[1..], b);
      assert (w + b)[1..] == w[1..] + b;
    }
  }

  lemma {:induction false} SubsequenceConcat(a: seq<ItemId>, b: seq<ItemId>, c: seq<ItemId>, d: seq<ItemId>)
    requires Subsequence(a, b) && Subsequence(c, d)
    ensures Subsequence(a + c, b + d)
    decreases |b|
  {
    if a == [] {
      assert a + c == c;
      SubsequenceSkip(c, b, d);
    } else if a[0] == b[0] && Subsequence(a[1..], b[1..]) {
      SubsequenceConcat(a[1..], b[1..], c, d);
      assert (a + c)[1..] == a[1..] + c && (b + d)[1..] == b[1..] + d;
    } else {
      SubsequenceConcat(a, b[1..], c, d);
      assert (b + d)[1..] == b[1..] + d;
    }
  }

  lemma {:induction false} SubsequenceLength(a: seq<ItemId>, b: seq<ItemId>)
    requires Subsequence(a, b)
    ensures |a| <= |b|
    ensures |a| == |b| ==> a == b
    decreases |b|
  {
    if a != [] {
      if a[0] == b[0] && Subsequence(a[1..], b[1..]) {
        SubsequenceLength(a[1..], b[1..]);
      } else {
        SubsequenceLength(a, b[1..]);
      }
    }
  }

  /** Every item of s is in t, under the same parent. */
  ghost predicate ItemsKept(s: DocState, t: DocState) {
    forall id | id in s.items :: id in t.items && t.items[id].parent == s.items[id].parent
  }

  lemma {:induction false} PathKept(s: DocState, t: DocState, path: seq<ItemId>)
    requires ItemsKept(s, t) && IsPath(s, path)
    ensures IsPath(t, path)
  {
    if path != [] {
      PathKept(s, t, path[..|path| - 1]);
    }
  }

  lemma {:induction false} WalkKept(s: DocState, t: DocState, parent: Option<ItemId>, path: seq<ItemId>)
    requires Linked(s.items, s.children) && Linked(t.items, t.children) && ItemsKept(s, t)
    requires IsPath(s, path) && IsPath(t, path) && Tip(path) == parent
    ensures Subsequence(Walk(s, parent, path), Walk(t, parent, path))
    decreases |s.items| - |path|, |Kids(s, parent)| + |Kids(t, parent)| + 1
  {
    PathBounded(s, path);
    KidsOfTip(s, parent);
    KidsOfTip(t, parent);
    WalkKidsKept(s, t, SortDescending(Kids(s, parent)), SortDescending(Kids(t, parent)), path);
  }

  lemma {:induction false} WalkKidsKept(s: DocState, t: DocState, ks: seq<ItemId>, kt: seq<ItemId>, path: seq<ItemId>)
    requires Linked(s.items, s.children) && Linked(t.items, t.children) && ItemsKept(s, t)
    requires IsPath(s, path) && IsPath(t, path) && Descending(ks) && Descending(kt)
    requires forall k | k in ks :: k in s.items && s.items[k].parent == Tip(path)
    requires forall k | k in kt :: k in t.items && t.items[k].parent == Tip(path)
    requires forall k | k in ks :: k in kt
    ensures Subsequence(WalkKids(s, ks, path), WalkKids(t, kt, path))
    decreases |s.items| - |path|, |ks| + |kt|
  {
    hide ItemsKept, Linked, Tip;
    if ks != [] {
      assert ks[0] in ks && ks[0] in kt && kt[0] in kt;
      var k := kt[0];
      PathStep(t, path, k);
      PathStep(s, path, ks[0]);
      PathBounded(s, path + [ks[0]]);
      if k == ks[0] {
        WalkKept(s, t, Some(k), path + [k]);
        forall k2 | k2 in ks[1..] ensures k2 in kt[1..] {
          assert k2 in ks && k2 != k;
          assert k2 in kt;
        }
        WalkKidsKept(s, t, ks[1..], kt[1..], path);
        SubsequenceRefl([k]);
        SubsequenceConcat([k], [k], Walk(s, Some(k), path + [k]), Walk(t, Some(k), path + [k]));
        SubsequenceConcat([k] + Walk(s, Some(k), path + [k]), [k] + Walk(t, Some(k), path + [k]),
          WalkKids(s, ks[1..], path), WalkKids(t, kt[1..], path));
      } else {
        assert k !in ks;
        WalkKidsKept(s, t, ks, kt[1..], path);
        SubsequenceSkip(WalkKids(s, ks, path), [k] + Walk(t, Some(k), path + [k]), WalkKids(t, kt[1..], path));
      }
    }
  }

  /** Integrating any operation leaves the old document order intact as a subsequence of the new one. */
  lemma IntegrateNeverReorders(s: DocState, op: Op)
    requires DocOk(s)
    ensures DocOk(Integrate(s, op))
    ensures Subsequence(DocumentOrder(s), DocumentOrder(Integrate(s, op)))
  {
    IntegrateKeepsLinks(s, op);
    WalkKept(s, Integrate(s, op), None, []);
  }

  // ---------- convergence ----------

  ghost predicate SameView(s: DocState, t: DocState)
    requires DocOk(s) && DocOk(t)
  {
    Text(s) == Text(t) && forall key :: MapGet(s, key) == MapGet(t, key)
  }

  /** The document order depends on the items and their parents alone, not on tombstones. */
  lemma SameOrder(s: DocState, t: DocState)
    requires DocOk(s) && DocOk(t) && ItemsKept(s, t) && ItemsKept(t, s)
    ensures DocumentOrder(s) == DocumentOrder(t)
  {
    WalkKept(s, t, None, []);
    WalkKept(t, s, None, []);
    SubsequenceLength(DocumentOrder(s), DocumentOrder(t));
    SubsequenceLength(DocumentOrder(t), DocumentOrder(s));
  }

  lemma SameItemsSameText(s: DocState, t: DocState)
    requires DocOk(s) && DocOk(t) && s.items == t.items
    ensures Text(s) == Text(t)
  {
    SameOrder(s, t);
    SameVisible(s, t, DocumentOrder(s));
    SameContents(s, t, VisibleIds(s));
  }

  lemma {:induction false} SameVisible(s: DocState, t: DocState, ids: seq<ItemId>)
    requires s.items == t.items
    ensures Visible(s, ids) == Visible(t, ids)
  {
    if ids != [] { SameVisible(s, t, ids[1..]); }
  }

  lemma {:induction false} SameContents(s: DocState, t: DocState, ids: seq<ItemId>)
    requires s.items == t.items
    ensures Contents(s, ids) == Contents(t, ids)
  {
    if ids != [] { SameContents(s, t, ids[1..]); }
  }

  /** Replicas described by the same operations show the same text and map. */
  lemma SameDescriptionSameView(S: set<Op>, s: DocState, t: DocState)
    requires Describes(S, s) && Describes(S, t) && UniquelyNamed(S)
    ensures SameView(s, t)
  {
    DescriptionUnique(S, s, t);
    SameItemsSameText(s, t);
  }

  /**
    Convergence: two replicas that integrate the same set of operations, in any order and
    with any repetitions, show the same text and the same map.
   */
  lemma Convergence(a: nat, b: nat, ops1: seq<Op>, ops2: seq<Op>)
    requires ToSet(ops1) == ToSet(ops2) && UniquelyNamed(ToSet(ops1))
    ensures DocOk(IntegrateAll(NewDoc(a), ops1)) && DocOk(IntegrateAll(NewDoc(b), ops2))
    ensures SameView(IntegrateAll(NewDoc(a), ops1), IntegrateAll(NewDoc(b), ops2))
  {
    NewDocDescribed(a);
    NewDocDescribed(b);
    assert {} + ToSet(ops1) == ToSet(ops1) && {} + ToSet(ops2) == ToSet(ops2);
    IntegrateAllDescribed({}, NewDoc(a), ops1);
    IntegrateAllDescribed({}, NewDoc(b), ops2);
    SameDescriptionSameView(ToSet(ops1), IntegrateAll(NewDoc(a), ops1), IntegrateAll(NewDoc(b), ops2));
  }

  // ---------- merging through the op log ----------

  function MergeDocs(s: DocState, remote: DocState): DocState {
    IntegrateAll(s, remote.opLog)
  }

  /** The log drops repeats and stale map writes, but keeps an operation that covers each one. */
  ghost predicate LogCovers(S: set<Op>, s: DocState) {
    && (forall op | op in s.opLog :: op in S)
    && forall op | op in S && op !in s.opLog :: StaleUnder(ToSet(s.opLog), op)
  }

  /** op is a map write and S has one to the same key at least as new. */
  ghost predicate StaleUnder(S: set<Op>, op: Op) {
    op.IsMapOp() && exists o | o in S :: o.IsMapOp() && o.key == op.key && !TimeLess(o.time, op.time)
  }

  /** A document that holds exactly the operations of S and logs enough of them. */
  ghost predicate Holds(S: set<Op>, s: DocState) {
    Describes(S, s) && LogCovers(S, s) && LogHasNewest(s)
  }

  ghost predicate LogHasNewest(s: DocState) {
    forall key | key in s.lww :: exists op | op in s.opLog :: WritesCell(op, key, s.lww[key])
  }

  lemma NewDocHolds(agent: nat)
    ensures Holds({}, NewDoc(agent))
  {
    NewDocDescribed(agent);
  }

  lemma LogGrows(s: DocState, op: Op)
    ensures ToSet(s.opLog + [op]) == ToSet(s.opLog) + {op}
  {
  }

  lemma StaleUnderMore(S: set<Op>, T: set<Op>, op: Op)
    requires StaleUnder(S, op) && S <= T
    ensures StaleUnder(T, op)
  {
    var o :| o in S && o.IsMapOp() && o.key == op.key && !TimeLess(o.time, op.time);
    assert o in T;
  }

  lemma IntegrateKeepsNewestLogged(s: DocState, op: Op)
    requires LogHasNewest(s)
    ensures LogHasNewest(Integrate(s, op))
  {
    var t := Integrate(s, op);
    forall key | key in t.lww ensures exists o | o in t.opLog :: WritesCell(o, key, t.lww[key]) {
      if op.IsMapOp() && op.key == key && !Ignored(s, op) {
        assert t.opLog[|s.opLog|] == op && WritesCell(op, key, t.lww[key]);
      } else {
        var o :| o in s.opLog && WritesCell(o, key, s.lww[key]);
        assert o in t.opLog;
      }
    }
  }

  lemma IgnoredIsCovered(S: set<Op>, s: DocState, op: Op)
    requires Holds(S, s) && UniquelyNamed(S + {op}) && Ignored(s, op)
    ensures op in S || StaleUnder(ToSet(s.opLog), op)
  {
    match op
    case InsertOp(id, _, _) =>
      assert Inserts(S, id);
      RepeatedInsert(S, op);
    case DeleteOp(_, opId) =>
      var o :| o in S && o.DeleteOp? && o.opId == opId;
      assert o in S + {op} && o == op;
    case _ =>
      var o :| o in s.opLog && WritesCell(o, op.key, s.lww[op.key]);
      assert o in ToSet(s.opLog);
  }

  lemma IntegrateHolds(S: set<Op>, s: DocState, op: Op)
    requires Holds(S, s) && UniquelyNamed(S + {op})
    ensures Holds(S + {op}, Integrate(s, op))
  {
    hide Newest, WritesCell;
    IntegrateDescribed(S, s, op);
    IntegrateKeepsNewestLogged(s, op);
    var t := Integrate(s, op);
    if Ignored(s, op) {
      IgnoredIsCovered(S, s, op);
    } else {
      LogGrows(s, op);
      forall o | o in S + {op} && o !in t.opLog ensures StaleUnder(ToSet(t.opLog), o) {
        assert t.opLog[|s.opLog|] == op;
        assert o in S && o !in s.opLog;
        StaleUnderMore(ToSet(s.opLog), ToSet(t.opLog), o);
      }
    }
  }

  lemma {:induction false} IntegrateAllHolds(S: set<Op>, s: DocState, ops: seq<Op>)
    requires Holds(S, s) && UniquelyNamed(S + ToSet(ops))
    ensures Holds(S + ToSet(ops), IntegrateAll(s, ops))
    decreases |ops|
  {
    if ops == [] {
      assert S + ToSet(ops) == S;
    } else {
      assert ops == [ops[0]] + ops[1..];
      assert S + ToSet(ops) == (S + {ops[0]}) + ToSet(ops[1..]);
      SubsetUniquelyNamed(S + {ops[0]}, S + ToSet(ops));
      IntegrateHolds(S, s, ops[0]);
      IntegrateAllHolds(S + {ops[0]}, Integrate(s, ops[0]), ops[1..]);
    }
  }

  lemma StaleChain(A: set<Op>, o: Op, op: Op)
    requires o.IsMapOp() && op.IsMapOp() && o.key == op.key && !TimeLess(o.time, op.time)
    requires o in A || StaleUnder(A, o)
    ensures StaleUnder(A, op)
  {
    if o !in A {
      var o2 :| o2 in A && o2.IsMapOp() && o2.key == o.key && !TimeLess(o2.time, o.time);
      assert !TimeLess(o2.time, op.time);
    }
  }

  lemma LogCoversAbsorbs(A: set<Op>, B: set<Op>, s: DocState, op: Op)
    requires LogCovers(A, s) && (op in A || StaleUnder(A, op)) && op !in s.opLog
    ensures StaleUnder(ToSet(s.opLog), op)
  {
    if op !in A {
      var o :| o in A && o.IsMapOp() && o.key == op.key && !TimeLess(o.time, op.time);
      assert o in ToSet(s.opLog) || StaleUnder(ToSet(s.opLog), o);
      StaleChain(ToSet(s.opLog), o, op);
    }
  }

  /** Holding fewer stale writes is holding them all. */
  lemma HoldsAbsorbs(A: set<Op>, B: set<Op>, s: DocState)
    requires Holds(A, s) && A <= B && UniquelyNamed(B)
    requires forall op | op in B && op !in A :: StaleUnder(A, op)
    ensures Holds(B, s)
  {
    AbsorbStaleWrites(A, B, s);
    forall op | op in B && op !in s.opLog ensures StaleUnder(ToSet(s.opLog), op) {
      LogCoversAbsorbs(A, B, s, op);
    }
  }

  /** Merging a document in adds all operations it holds, although its log omits the stale ones. */
  lemma MergeHolds(S: set<Op>, s: DocState, T: set<Op>, t: DocState)
    requires Holds(S, s) && Holds(T, t) && UniquelyNamed(S + T)
    ensures Holds(S + T, MergeDocs(s, t))
  {
    var L := ToSet(t.opLog);
    assert S + L <= S + T;
    SubsetUniquelyNamed(S + L, S + T);
    IntegrateAllHolds(S, s, t.opLog);
    forall op | op in S + T && op !in S + L ensures StaleUnder(S + L, op) {
      StaleUnderMore(L, S + L, op);
    }
    HoldsAbsorbs(S + L, S + T, MergeDocs(s, t));
  }

  /** Both directions of a merge show the same. */
  lemma MergeCommutes(S: set<Op>, s: DocState, T: set<Op>, t: DocState)
    requires Holds(S, s) && Holds(T, t) && UniquelyNamed(S + T)
    ensures DocOk(MergeDocs(s, t)) && DocOk(MergeDocs(t, s))
    ensures SameView(MergeDocs(s, t), MergeDocs(t, s))
  {
    MergeHolds(S, s, T, t);
    assert T + S == S + T;
    MergeHolds(T, t, S, s);
    SameDescriptionSameView(S + T, MergeDocs(s, t), MergeDocs(t, s));
  }

  /** Merging twice, or with oneself, shows nothing new. */
  lemma MergeIdempotent(S: set<Op>, s: DocState, T: set<Op>, t: DocState)
    requires Holds(S, s) && Holds(T, t) && UniquelyNamed(S + T)
    ensures DocOk(MergeDocs(s, s)) && SameView(MergeDocs(s, s), s)
    ensures DocOk(MergeDocs(MergeDocs(s, t), t)) && DocOk(MergeDocs(s, t))
    ensures SameView(MergeDocs(MergeDocs(s, t), t), MergeDocs(s, t))
  {
    SubsetUniquelyNamed(S, S + T);
    assert S + S == S && (S + T) + T == S + T;
    MergeHolds(S, s, S, s);
    SameDescriptionSameView(S, MergeDocs(s, s), s);
    MergeHolds(S, s, T, t);
    MergeHolds(S + T, MergeDocs(s, t), T, t);
    SameDescriptionSameView(S + T, MergeDocs(MergeDocs(s, t), t), MergeDocs(s, t));
  }

  /** The grouping of merges does not show. */
  lemma MergeAssociates(S: set<Op>, s: DocState, T: set<Op>, t: DocState, U: set<Op>, u: DocState)
    requires Holds(S, s) && Holds(T, t) && Holds(U, u) && UniquelyNamed(S + T + U)
    ensures DocOk(MergeDocs(MergeDocs(s, t), u)) && DocOk(MergeDocs(s, MergeDocs(t, u)))
    ensures SameView(MergeDocs(MergeDocs(s, t), u), MergeDocs(s, MergeDocs(t, u)))
  {
    hide MapDescribed, MergeDocs, UniquelyNamed, VisibleIds, WritesCell;
    SubsetUniquelyNamed(S + T, S + T + U);
    SubsetUniquelyNamed(T + U, S + T + U);
    MergeHolds(S, s, T, t);
    MergeHolds(S + T, MergeDocs(s, t), U, u);
    MergeHolds(T, t, U, u);
    assert S + (T + U) == S + T + U;
    MergeHolds(S, s, T + U, MergeDocs(t, u));
    SameDescriptionSameView(S + T + U, MergeDocs(MergeDocs(s, t), u), MergeDocs(s, MergeDocs(t, u)));
  }
}
