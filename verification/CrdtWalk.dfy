/**
  The depth-first RGA walk of consensus/src/crdt.rs over any linked document, including
  ones with missing parents or parent cycles.
 */
module CrdtWalk {
  import opened Common
  import opened CrdtState

  // ---------- sorting children, largest id first ----------

  ghost predicate Descending(ids: seq<ItemId>) {
    forall i, j | 0 <= i < j < |ids| :: IdLess(ids[j], ids[i])
  }

  function InsertDescending(id: ItemId, ids: seq<ItemId>): (r: seq<ItemId>)
    requires Descending(ids) && id !in ids
    ensures Descending(r) && |r| == |ids| + 1
    ensures forall x :: x in r <==> x == id || x in ids
  {
    if ids == [] || IdLess(ids[0], id) then [id] + ids
    else
      var rest := InsertDescending(id, ids[1..]);
      assert ids[0] in ids && forall x :: x in ids <==> x == ids[0] || x in ids[1..];
      assert forall x | x in rest :: IdLess(x, ids[0]);
      assert forall i | 0 <= i < |rest| :: rest[i] in rest;
      [ids[0]] + rest
  }

  /** `kids.sort_by(|a, b| b.cmp(a))` on distinct ids. */
  function SortDescending(ids: seq<ItemId>): (r: seq<ItemId>)
    requires NoDuplicates(ids)
    ensures Descending(r) && |r| == |ids|
    ensures forall x :: x in r <==> x in ids
  {
    if ids == [] then []
    else
      assert forall x :: x in ids <==> x == ids[0] || x in ids[1..];
      InsertDescending(ids[0], SortDescending(ids[1..]))
  }

  lemma {:induction false} DescendingUnique(a: seq<ItemId>, b: seq<ItemId>)
    requires Descending(a) && Descending(b) && forall x :: x in a <==> x in b
    ensures a == b
  {
    assert b != [] ==> b[0] in b;
    if a != [] {
      assert a[0] in a && a[0] in b && b[0] in a;
      assert a[0] == b[0];
      forall x ensures x in a[1..] <==> x in b[1..] {
        assert x in a <==> x == a[0] || x in a[1..];
        assert x in b <==> x == b[0] || x in b[1..];
      }
      DescendingUnique(a[1..], b[1..]);
      assert a == [a[0]] + a[1..] && b == [b[0]] + b[1..];
    }
  }

  // ---------- paths from the document root ----------

  function Tip(path: seq<ItemId>): Option<ItemId> {
    if path == [] then None else Some(path[|path| - 1])
  }

  /** Each id's recorded parent is the one before it; the first hangs off the root. */
  ghost predicate IsPath(s: DocState, path: seq<ItemId>) {
    path == [] || (
      var before, last := path[..|path| - 1], path[|path| - 1];
      IsPath(s, before) && last in s.items && s.items[last].parent == Tip(before))
  }

  ghost predicate Reachable(s: DocState, id: ItemId) {
    exists path :: IsPath(s, path) && Tip(path) == Some(id)
  }

  lemma {:induction false} PathPrefix(s: DocState, path: seq<ItemId>, n: nat)
    requires IsPath(s, path) && n <= |path|
    ensures IsPath(s, path[..n])
  {
    if n == |path| {
      assert path[..n] == path;
    } else {
      PathPrefix(s, path[..|path| - 1], n);
      assert path[..|path| - 1][..n] == path[..n];
    }
  }

  lemma PathStep(s: DocState, path: seq<ItemId>, id: ItemId)
    ensures IsPath(s, path + [id]) <==> IsPath(s, path) && id in s.items && s.items[id].parent == Tip(path)
    ensures Tip(path + [id]) == Some(id)
  {
    assert (path + [id])[..|path|] == path;
  }

  /** An item has one path from the root: equal tips have equal parents, all the way up. */
  lemma {:induction false} PathUnique(s: DocState, p: seq<ItemId>, q: seq<ItemId>)
    requires IsPath(s, p) && IsPath(s, q) && Tip(p) == Tip(q)
    ensures p == q
    decreases |p|
  {
    if p != [] {
      var p', q' := p[..|p| - 1], q[..|q| - 1];
      PathUnique(s, p', q');
      assert p == p' + [p[|p| - 1]] && q == q' + [q[|q| - 1]];
    }
  }

  /** So a path never meets an id twice, even when parents elsewhere form a cycle. */
  lemma PathDistinct(s: DocState, path: seq<ItemId>)
    requires IsPath(s, path)
    ensures NoDuplicates(path)
  {
    hide IsPath;
    forall i, j | 0 <= i < j < |path| ensures path[i] != path[j] {
      PathPrefix(s, path, i + 1);
      PathPrefix(s, path, j + 1);
      if path[i] == path[j] {
        PathUnique(s, path[..i + 1], path[..j + 1]);
      }
    }
  }

  lemma {:induction false} PathInItems(s: DocState, path: seq<ItemId>)
    requires IsPath(s, path)
    ensures forall id | id in path :: id in s.items
  {
    if path != [] {
      PathInItems(s, path[..|path| - 1]);
      assert path == path[..|path| - 1] + [path[|path| - 1]];
    }
  }

  lemma {:induction false} DistinctIdsFit(ids: seq<ItemId>, universe: set<ItemId>)
    requires NoDuplicates(ids) && forall id | id in ids :: id in universe
    ensures |ids| <= |universe|
  {
    if ids != [] {
      var last := ids[|ids| - 1];
      DistinctIdsFit(ids[..|ids| - 1], universe - {last});
    }
  }

  /** And the recursion is at most as deep as the document has items. */
  lemma PathBounded(s: DocState, path: seq<ItemId>)
    requires IsPath(s, path)
    ensures |path| <= |s.items|
  {
    PathDistinct(s, path);
    PathInItems(s, path);
    DistinctIdsFit(path, s.items.Keys);
  }

  // ---------- the walk ----------

  lemma KidsOfTip(s: DocState, parent: Option<ItemId>)
    requires Linked(s.items, s.children)
    ensures NoDuplicates(Kids(s, parent))
    ensures forall id :: id in Kids(s, parent) <==> id in s.items && s.items[id].parent == parent
  {
    forall id ensures id in Kids(s, parent) <==> id in s.items && s.items[id].parent == parent {
      KidsAreByParent(s, parent, id);
    }
  }

  /** Ids in document order below `parent`; the ghost path leads to it and bounds the depth. */
  function Walk(s: DocState, parent: Option<ItemId>, ghost path: seq<ItemId>): seq<ItemId>
    requires Linked(s.items, s.children) && IsPath(s, path) && Tip(path) == parent
    decreases |s.items| - |path|, |Kids(s, parent)| + 1
  {
    PathBounded(s, path);
    KidsOfTip(s, parent);
    WalkKids(s, SortDescending(Kids(s, parent)), path)
  }

  function WalkKids(s: DocState, kids: seq<ItemId>, ghost path: seq<ItemId>): seq<ItemId>
    requires Linked(s.items, s.children) && IsPath(s, path)
    requires forall id | id in kids :: id in s.items && s.items[id].parent == Tip(path)
    decreases |s.items| - |path|, |kids|
  {
    if kids == [] then []
    else
      assert kids[0] in kids;
      PathStep(s, path, kids[0]);
      PathBounded(s, path + [kids[0]]);
      [kids[0]] + Walk(s, Some(kids[0]), path + [kids[0]]) + WalkKids(s, kids[1..], path)
  }

  function DocumentOrder(s: DocState): seq<ItemId>
    requires Linked(s.items, s.children)
  {
    Walk(s, None, [])
  }

  function Visible(s: DocState, ids: seq<ItemId>): seq<ItemId> {
    if ids == [] then []
    else (if ids[0] in s.items && !s.items[ids[0]].deleted then [ids[0]] else []) + Visible(s, ids[1..])
  }

  function Contents(s: DocState, ids: seq<ItemId>): string {
    if ids == [] then ""
    else (if ids[0] in s.items then [s.items[ids[0]].content] else []) + Contents(s, ids[1..])
  }

  function VisibleIds(s: DocState): seq<ItemId>
    requires Linked(s.items, s.children)
  {
    Visible(s, DocumentOrder(s))
  }

  /** `text`. */
  function Text(s: DocState): string
    requires Linked(s.items, s.children)
  {
    Contents(s, VisibleIds(s))
  }

  // ---------- the walk visits each reachable item exactly once ----------

  /** id lies strictly below the end of the path. */
  ghost predicate Below(s: DocState, path: seq<ItemId>, id: ItemId) {
    exists q: seq<ItemId> :: path < q && IsPath(s, q) && Tip(q) == Some(id)
  }

  lemma BelowKid(s: DocState, path: seq<ItemId>, k: ItemId, id: ItemId)
    requires IsPath(s, path + [k]) && (id == k || Below(s, path + [k], id))
    ensures Below(s, path, id)
  {
    if id == k {
      assert path < path + [k] && Tip(path + [k]) == Some(id);
    } else {
      var q :| path + [k] < q && IsPath(s, q) && Tip(q) == Some(id);
      assert path < q;
    }
  }

  lemma {:induction false} WalkSound(s: DocState, parent: Option<ItemId>, path: seq<ItemId>, id: ItemId)
    requires Linked(s.items, s.children) && IsPath(s, path) && Tip(path) == parent
    requires id in Walk(s, parent, path)
    ensures Below(s, path, id)
    decreases |s.items| - |path|, |Kids(s, parent)| + 1
  {
    PathBounded(s, path);
    KidsOfTip(s, parent);
    var k := WalkKidsSound(s, SortDescending(Kids(s, parent)), path, id);
    BelowKid(s, path, k, id);
  }

  lemma {:induction false} WalkKidsSound(s: DocState, kids: seq<ItemId>, path: seq<ItemId>, id: ItemId)
      returns (k: ItemId)
    requires Linked(s.items, s.children) && IsPath(s, path)
    requires forall k | k in kids :: k in s.items && s.items[k].parent == Tip(path)
    requires id in WalkKids(s, kids, path)
    ensures k in kids && IsPath(s, path + [k]) && (id == k || Below(s, path + [k], id))
    decreases |s.items| - |path|, |kids|
  {
    k := kids[0];
    assert k in kids;
    PathStep(s, path, k);
    PathBounded(s, path + [k]);
    if id != k {
      if id in Walk(s, Some(k), path + [k]) {
        WalkSound(s, Some(k), path + [k], id);
      } else {
        k := WalkKidsSound(s, kids[1..], path, id);
      }
    }
  }

  lemma {:induction false} WalkComplete(s: DocState, parent: Option<ItemId>, path: seq<ItemId>, more: seq<ItemId>)
    requires Linked(s.items, s.children) && IsPath(s, path) && Tip(path) == parent
    requires more != [] && IsPath(s, path + more)
    ensures more[|more| - 1] in Walk(s, parent, path)
    decreases |more|, |Kids(s, parent)| + 1
  {
    PathBounded(s, path);
    KidsOfTip(s, parent);
    PathPrefix(s, path + more, |path| + 1);
    assert (path + more)[..|path| + 1] == path + [more[0]];
    PathStep(s, path, more[0]);
    WalkKidsComplete(s, SortDescending(Kids(s, parent)), path, more);
  }

  lemma {:induction false} WalkKidsComplete(s: DocState, kids: seq<ItemId>, path: seq<ItemId>, more: seq<ItemId>)
    requires Linked(s.items, s.children) && IsPath(s, path)
    requires forall k | k in kids :: k in s.items && s.items[k].parent == Tip(path)
    requires more != [] && IsPath(s, path + more) && more[0] in kids
    ensures more[|more| - 1] in WalkKids(s, kids, path)
    decreases |more|, |kids|
  {
    hide Walk;
    var k := kids[0];
    assert k in kids;
    PathStep(s, path, k);
    PathBounded(s, path + [k]);
    if k != more[0] {
      WalkKidsComplete(s, kids[1..], path, more);
    } else if |more| > 1 {
      assert path + more == (path + [k]) + more[1..];
      WalkComplete(s, Some(k), path + [k], more[1..]);
    }
  }

  /** Ids below different children of one parent are different. */
  lemma SubtreesDisjoint(s: DocState, path: seq<ItemId>, a: ItemId, b: ItemId, id: ItemId)
    requires IsPath(s, path + [a]) && IsPath(s, path + [b])
    requires id == a || Below(s, path + [a], id)
    requires id == b || Below(s, path + [b], id)
    ensures a == b
  {
    var p := PathThrough(s, path + [a], id);
    var q := PathThrough(s, path + [b], id);
    PathUnique(s, p, q);
    assert p[|path|] == (path + [a])[|path|] && q[|path|] == (path + [b])[|path|];
  }

  lemma PathThrough(s: DocState, path: seq<ItemId>, id: ItemId) returns (p: seq<ItemId>)
    requires IsPath(s, path) && (Tip(path) == Some(id) || Below(s, path, id))
    ensures path <= p && IsPath(s, p) && Tip(p) == Some(id)
  {
    if Tip(path) == Some(id) {
      p := path;
    } else {
      p :| path < p && IsPath(s, p) && Tip(p) == Some(id);
    }
  }

  lemma {:induction false} WalkNoDuplicates(s: DocState, parent: Option<ItemId>, path: seq<ItemId>)
    requires Linked(s.items, s.children) && IsPath(s, path) && Tip(path) == parent
    ensures NoDuplicates(Walk(s, parent, path))
    decreases |s.items| - |path|, |Kids(s, parent)| + 1
  {
    PathBounded(s, path);
    KidsOfTip(s, parent);
    WalkKidsNoDuplicates(s, SortDescending(Kids(s, parent)), path);
  }

  lemma {:induction false} WalkKidsNoDuplicates(s: DocState, kids: seq<ItemId>, path: seq<ItemId>)
    requires Linked(s.items, s.children) && IsPath(s, path) && Descending(kids)
    requires forall k | k in kids :: k in s.items && s.items[k].parent == Tip(path)
    ensures NoDuplicates(WalkKids(s, kids, path))
    decreases |s.items| - |path|, |kids|
  {
    if kids != [] {
      var k := kids[0];
      assert k in kids;
      PathStep(s, path, k);
      PathBounded(s, path + [k]);
      WalkNoDuplicates(s, Some(k), path + [k]);
      WalkKidsNoDuplicates(s, kids[1..], path);
      var inner, later := Walk(s, Some(k), path + [k]), WalkKids(s, kids[1..], path);
      forall id | id in inner ensures id != k {
        WalkSound(s, Some(k), path + [k], id);
        NotBelowItself(s, path + [k], id);
      }
      forall id | id in later ensures id != k && id !in inner {
        var k2 := WalkKidsSound(s, kids[1..], path, id);
        assert k2 != k;
        if id == k || id in inner {
          if id in inner { WalkSound(s, Some(k), path + [k], id); }
          SubtreesDisjoint(s, path, k, k2, id);
        }
      }
      NoDuplicatesConcat([k], inner);
      NoDuplicatesConcat([k] + inner, later);
    }
  }

  lemma NotBelowItself(s: DocState, path: seq<ItemId>, id: ItemId)
    requires IsPath(s, path) && Below(s, path, id)
    ensures Tip(path) != Some(id)
  {
    var q :| path < q && IsPath(s, q) && Tip(q) == Some(id);
    if Tip(path) == Some(id) {
      PathUnique(s, path, q);
    }
  }

  lemma NoDuplicatesConcat(a: seq<ItemId>, b: seq<ItemId>)
    requires NoDuplicates(a) && NoDuplicates(b) && forall id | id in b :: id !in a
    ensures NoDuplicates(a + b)
  {
    forall i, j | 0 <= i < j < |a + b| ensures (a + b)[i] != (a + b)[j] {
      if i < |a| <= j {
        assert a[i] in a && b[j - |a|] in b;
      }
    }
  }

  /** The walk from the root visits every item reachable from it, exactly once, and nothing else. */
  lemma WalkVisitsReachableOnce(s: DocState)
    requires DocOk(s)
    ensures NoDuplicates(DocumentOrder(s))
    ensures forall id :: id in DocumentOrder(s) <==> Reachable(s, id)
  {
    WalkNoDuplicates(s, None, []);
    forall id ensures id in DocumentOrder(s) <==> Reachable(s, id) {
      if id in DocumentOrder(s) {
        WalkSound(s, None, [], id);
        var q :| [] < q && IsPath(s, q) && Tip(q) == Some(id);
      }
      if Reachable(s, id) {
        var path :| IsPath(s, path) && Tip(path) == Some(id);
        assert [] + path == path;
        WalkComplete(s, None, [], path);
      }
    }
  }
}
