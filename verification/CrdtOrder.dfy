/**
  What a document of consensus/src/crdt.rs shows, told from its operations alone: the order of its
  items by their paths from the root, and the winner of every map key.
 */
module CrdtOrder {
  import opened Common
  import opened CrdtState
  import opened CrdtWalk
  import opened CrdtSync
  import opened CrdtDoc

  // ---------- document order ----------

  /** The path p sorts before q: it leads to an ancestor, or takes the larger id where they part. */
  ghost predicate PathBefore(p: seq<ItemId>, q: seq<ItemId>) {
    p < q || exists n: nat :: PartsLarger(p, q, n)
  }

  ghost predicate PartsLarger(p: seq<ItemId>, q: seq<ItemId>, n: nat) {
    && n < |p| && n < |q| && p[..n] == q[..n]
    && (p[n].agent > q[n].agent || (p[n].agent == q[n].agent && p[n].number > q[n].number))
  }

  ghost predicate Precedes(w: seq<ItemId>, x: ItemId, y: ItemId) {
    exists i, j :: 0 <= i < j < |w| && w[i] == x && w[j] == y
  }

  lemma PrecedesAcross(a: seq<ItemId>, b: seq<ItemId>, x: ItemId, y: ItemId)
    requires x in a && y in b
    ensures Precedes(a + b, x, y)
  {
    var i :| 0 <= i < |a| && a[i] == x;
    var j :| 0 <= j < |b| && b[j] == y;
    assert (a + b)[i] == x && (a + b)[|a| + j] == y;
  }

  lemma PrecedesWithin(a: seq<ItemId>, w: seq<ItemId>, b: seq<ItemId>, x: ItemId, y: ItemId)
    requires Precedes(w, x, y)
    ensures Precedes(a + w + b, x, y)
  {
    var i, j :| 0 <= i < j < |w| && w[i] == x && w[j] == y;
    assert (a + w + b)[|a| + i] == x && (a + w + b)[|a| + j] == y;
  }

  /** Below a common first step the rest decides. */
  lemma SameFirstStep(a: seq<ItemId>, b: seq<ItemId>)
    requires a != [] && b != [] && a[0] == b[0] && PathBefore(a, b)
    ensures |b| > 1 && (|a| == 1 || PathBefore(a[1..], b[1..]))
  {
    if n: nat :| PartsLarger(a, b, n) {
      assert n > 0;
      assert a[1..][..n - 1] == a[..n][1..] && b[1..][..n - 1] == b[..n][1..];
      assert PartsLarger(a[1..], b[1..], n - 1);
    }
  }

  lemma FirstShared(a: seq<ItemId>, b: seq<ItemId>, n: nat)
    requires n <= |a| && n <= |b| && a[..n] == b[..n]
    ensures n > 0 ==> a[0] == b[0]
  {
    assert n > 0 ==> a[..n][0] == a[0] && b[..n][0] == b[0];
  }

  lemma DifferentFirstSteps(a: seq<ItemId>, b: seq<ItemId>)
    requires a != [] && b != [] && a[0] != b[0] && PathBefore(a, b)
    ensures IdLess(b[0], a[0])
  {
    var n: nat :| PartsLarger(a, b, n);
    FirstShared(a, b, n);
  }

  lemma {:induction false} WalkOrders(s: DocState, parent: Option<ItemId>, path: seq<ItemId>, a: seq<ItemId>,
      b: seq<ItemId>)
    requires Linked(s.items, s.children) && IsPath(s, path) && Tip(path) == parent
    requires a != [] && b != [] && IsPath(s, path + a) && IsPath(s, path + b) && PathBefore(a, b)
    ensures Precedes(Walk(s, parent, path), a[|a| - 1], b[|b| - 1])
    decreases |a|, |Kids(s, parent)| + 1
  {
    hide PathBefore, Precedes;
    PathBounded(s, path);
    KidsOfTip(s, parent);
    FirstStep(s, path, a);
    FirstStep(s, path, b);
    WalkKidsOrders(s, SortDescending(Kids(s, parent)), path, a, b);
  }

  lemma FirstStep(s: DocState, path: seq<ItemId>, more: seq<ItemId>)
    requires more != [] && IsPath(s, path + more)
    ensures IsPath(s, path + [more[0]]) && more[0] in s.items && s.items[more[0]].parent == Tip(path)
  {
    hide IsPath;
    PathPrefix(s, path + more, |path| + 1);
    assert (path + more)[..|path| + 1] == path + [more[0]];
    PathStep(s, path, more[0]);
  }

  lemma {:induction false} WalkKidsOrders(s: DocState, kids: seq<ItemId>, path: seq<ItemId>, a: seq<ItemId>,
      b: seq<ItemId>)
    requires Linked(s.items, s.children) && IsPath(s, path) && Descending(kids)
    requires forall k | k in kids :: k in s.items && s.items[k].parent == Tip(path)
    requires a != [] && b != [] && a[0] in kids && b[0] in kids
    requires IsPath(s, path + a) && IsPath(s, path + b) && PathBefore(a, b)
    ensures Precedes(WalkKids(s, kids, path), a[|a| - 1], b[|b| - 1])
    decreases |a|, |kids|
  {
    hide PathBefore, Precedes, Walk, Linked, IsPath;
    var k := kids[0];
    assert k in kids;
    FirstStep(s, path, a);
    FirstStep(s, path, b);
    PathStep(s, path, k);
    PathBounded(s, path + [k]);
    var x, y, inner, later := a[|a| - 1], b[|b| - 1], Walk(s, Some(k), path + [k]), WalkKids(s, kids[1..], path);
    if a[0] == b[0] == k {
      SameFirstStep(a, b);
      InSubtree(s, path, b);
      if |a| == 1 {
        PrecedesAcross([k], inner + later, x, y);
        assert [k] + (inner + later) == [k] + inner + later;
      } else {
        assert path + a == (path + [k]) + a[1..] && path + b == (path + [k]) + b[1..];
        WalkOrders(s, Some(k), path + [k], a[1..], b[1..]);
        PrecedesWithin([k], inner, later, x, y);
      }
    } else if a[0] == k {
      InSubtree(s, path, a);
      WalkKidsComplete(s, kids[1..], path, b);
      PrecedesAcross([k] + inner, later, x, y);
    } else {
      if b[0] == k { DifferentFirstSteps(a, b); }
      WalkKidsOrders(s, kids[1..], path, a, b);
      PrecedesWithin([k] + inner, later, [], x, y);
      assert [k] + inner + later + [] == [k] + inner + later;
    }
  }

  lemma InSubtree(s: DocState, path: seq<ItemId>, more: seq<ItemId>)
    requires Linked(s.items, s.children) && more != [] && IsPath(s, path + [more[0]]) && IsPath(s, path + more)
    ensures |more| > 1 ==> more[|more| - 1] in Walk(s, Some(more[0]), path + [more[0]])
  {
    if |more| > 1 {
      assert path + more == (path + [more[0]]) + more[1..];
      WalkComplete(s, Some(more[0]), path + [more[0]], more[1..]);
    }
  }

  lemma {:induction false} PathsCompare(p: seq<ItemId>, q: seq<ItemId>)
    requires p != q
    ensures PathBefore(p, q) || PathBefore(q, p)
  {
    if p != [] && q != [] {
      if p[0] == q[0] {
        assert p == [p[0]] + p[1..] && q == [q[0]] + q[1..];
        PathsCompare(p[1..], q[1..]);
        Extended(p, q);
        Extended(q, p);
      } else {
        assert p[..0] == q[..0];
        assert PartsLarger(p, q, 0) || PartsLarger(q, p, 0);
      }
    }
  }

  lemma Extended(p: seq<ItemId>, q: seq<ItemId>)
    requires p != [] && q != [] && p[0] == q[0]
    ensures PathBefore(p[1..], q[1..]) ==> PathBefore(p, q)
  {
    assert p == [p[0]] + p[1..] && q == [q[0]] + q[1..];
    if n: nat :| PartsLarger(p[1..], q[1..], n) {
      assert p[..n + 1] == [p[0]] + p[1..][..n] && q[..n + 1] == [q[0]] + q[1..][..n];
      assert PartsLarger(p, q, n + 1);
    }
  }

  lemma OneWayOnly(w: seq<ItemId>, x: ItemId, y: ItemId)
    requires NoDuplicates(w) && Precedes(w, x, y)
    ensures !Precedes(w, y, x)
  {
  }

  /**
    Document order, told from the paths to the root alone: x comes before y exactly when x is above y, or
    where their paths part the one to x takes the id with the larger agent, or the same agent and the
    larger number.
   */
  lemma OrderIsByPaths(s: DocState, p: seq<ItemId>, q: seq<ItemId>)
    requires DocOk(s) && p != [] && q != [] && p != q && IsPath(s, p) && IsPath(s, q)
    ensures Precedes(DocumentOrder(s), p[|p| - 1], q[|q| - 1]) <==> PathBefore(p, q)
  {
    hide PathBefore, Precedes, DocOk;
    assert Linked(s.items, s.children) by { LinkedDoc(s); }
    WalkVisitsReachableOnce(s);
    PathsCompare(p, q);
    assert [] + p == p && [] + q == q;
    if PathBefore(p, q) {
      WalkOrders(s, None, [], p, q);
    } else {
      WalkOrders(s, None, [], q, p);
      OneWayOnly(DocumentOrder(s), q[|q| - 1], p[|p| - 1]);
    }
  }

  lemma LinkedDoc(s: DocState)
    requires DocOk(s)
    ensures Linked(s.items, s.children)
  {
  }

  // ---------- the map ----------

  /** No other write in S to op's key has a later wall tick, or the same one and a larger agent. */
  ghost predicate LastWriter(S: set<Op>, op: Op) {
    op.IsMapOp() && op in S && forall o | o in S && o.IsMapOp() && o.key == op.key ::
      o.time.wall < op.time.wall || (o.time.wall == op.time.wall && o.time.agent <= op.time.agent)
  }

  /** A key that was written shows the last writer's value; a key that was not shows nothing. */
  lemma LastWriterWins(S: set<Op>, s: DocState, key: string)
    requires Describes(S, s)
    ensures key in s.lww <==> exists op | op in S :: op.IsMapOp() && op.key == key
    ensures key in s.lww ==> exists op :: LastWriter(S, op) && op.key == key && MapGet(s, key) == op.Written()
    ensures key !in s.lww ==> MapGet(s, key) == None
  {
    if key in s.lww {
      var op :| op in S && WritesCell(op, key, s.lww[key]) && Newest(S, op);
      assert LastWriter(S, op);
    }
  }

  /** Of two first writes the larger agent's shows after a merge in either direction. */
  lemma TieGoesToLargerAgent(a: nat, b: nat, key: string, x: Option<Bytes>, y: Option<Bytes>)
    requires a < b
    ensures var s, t := Wrote(NewDoc(a), key, x), Wrote(NewDoc(b), key, y);
      MapGet(MergeDocs(s, t), key) == MapGet(MergeDocs(t, s), key) == y
  {
    var s, t := Wrote(NewDoc(a), key, x), Wrote(NewDoc(b), key, y);
    assert s.opLog == [LocalWrite(NewDoc(a), key, x)] && t.opLog == [LocalWrite(NewDoc(b), key, y)];
    OneMerged(s, t.opLog[0]);
    OneMerged(t, s.opLog[0]);
  }

  lemma OneMerged(s: DocState, op: Op)
    ensures IntegrateAll(s, [op]) == Integrate(s, op)
  {
    assert [op][1..] == [];
  }

  /** A repeated operation changes nothing at all. */
  lemma RepeatChangesNothing(s: DocState, op: Op)
    ensures Integrate(Integrate(s, op), op) == Integrate(s, op)
  {
  }
}
