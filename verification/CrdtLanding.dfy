/**
  Where `insert_char` of consensus/src/crdt.rs puts a character: right after the visible
  item before the index, unless a larger sibling with visible text is already there.
 */
module CrdtLanding {
  import opened Common
  import opened CrdtState
  import opened CrdtWalk
  import opened CrdtSync
  import opened CrdtDoc

  /** The leading ids of a descending list that are larger than id. */
  function Bigger(kids: seq<ItemId>, id: ItemId): (r: seq<ItemId>)
    ensures r <= kids
    ensures forall k | k in r :: IdLess(id, k)
  {
    if kids == [] || !IdLess(id, kids[0]) then [] else [kids[0]] + Bigger(kids[1..], id)
  }

  lemma {:induction false} InsertsAfterBigger(id: ItemId, kids: seq<ItemId>)
    requires Descending(kids) && id !in kids
    ensures var b := Bigger(kids, id); InsertDescending(id, kids) == b + [id] + kids[|b|..]
  {
    if kids != [] && IdLess(id, kids[0]) {
      InsertsAfterBigger(id, kids[1..]);
      assert kids[|Bigger(kids, id)|..] == kids[1..][|Bigger(kids[1..], id)|..];
    } else if kids != [] {
      assert kids[0] in kids;
    }
  }

  /** t is s with one more item: id, under p. Items that were waiting for it hang below it. */
  ghost predicate OneMore(s: DocState, t: DocState, id: ItemId, p: Option<ItemId>) {
    && Linked(s.items, s.children) && Linked(t.items, t.children)
    && id !in s.items && id in t.items && t.items[id].parent == p
    && t.items == s.items[id := t.items[id]]
  }

  lemma HasMember(ids: seq<ItemId>)
    ensures ids != [] ==> exists x :: x in ids
  {
    if ids != [] {
      assert ids[0] in ids;
    }
  }

  lemma OneMoreKids(s: DocState, t: DocState, id: ItemId, p: Option<ItemId>, q: Option<ItemId>)
    requires OneMore(s, t, id, p) && p != Some(id)
    ensures q != p ==> SortDescending(Kids(t, q)) == SortDescending(Kids(s, q))
    ensures var k := SortDescending(Kids(s, p)); var b := Bigger(k, id);
      SortDescending(Kids(t, p)) == b + [id] + k[|b|..]
  {
    hide KidsIn, SortDescending;
    KidsOfTip(s, q);
    KidsOfTip(t, q);
    KidsOfTip(s, p);
    KidsOfTip(t, p);
    if q != p {
      DescendingUnique(SortDescending(Kids(t, q)), SortDescending(Kids(s, q)));
    }
    var k := SortDescending(Kids(s, p));
    InsertsAfterBigger(id, k);
    DescendingUnique(SortDescending(Kids(t, p)), InsertDescending(id, k));
  }

  ghost predicate KidsAt(s: DocState, kids: seq<ItemId>, path: seq<ItemId>) {
    forall k | k in kids :: k in s.items && s.items[k].parent == Tip(path)
  }

  lemma {:induction false} WalkKidsConcat(s: DocState, a: seq<ItemId>, b: seq<ItemId>, path: seq<ItemId>)
    requires Linked(s.items, s.children) && IsPath(s, path) && KidsAt(s, a, path) && KidsAt(s, b, path)
    ensures KidsAt(s, a + b, path) && WalkKids(s, a + b, path) == WalkKids(s, a, path) + WalkKids(s, b, path)
    decreases |a|
  {
    if a == [] {
      assert a + b == b;
    } else {
      assert a[0] in a;
      PathStep(s, path, a[0]);
      WalkKidsConcat(s, a[1..], b, path);
      assert (a + b)[1..] == a[1..] + b;
      ConcatAssoc([a[0]] + Walk(s, Some(a[0]), path + [a[0]]), WalkKids(s, a[1..], path), WalkKids(s, b, path));
    }
  }

  /** Subtrees that do not contain p are walked as before. */
  lemma {:induction false} WalkUnchanged(s: DocState, t: DocState, id: ItemId, p: Option<ItemId>,
      parent: Option<ItemId>, path: seq<ItemId>)
    requires OneMore(s, t, id, p) && p != Some(id)
    requires IsPath(s, path) && IsPath(t, path) && Tip(path) == parent
    requires parent != p && parent != Some(id) && (p.Some? ==> !Below(s, path, p.value))
    ensures Walk(t, parent, path) == Walk(s, parent, path)
    decreases |s.items| - |path|, |Kids(s, parent)| + 1
  {
    PathBounded(s, path);
    KidsOfTip(s, parent);
    OneMoreKids(s, t, id, p, parent);
    WalkKidsUnchanged(s, t, id, p, SortDescending(Kids(s, parent)), path);
  }

  lemma {:induction false} WalkKidsUnchanged(s: DocState, t: DocState, id: ItemId, p: Option<ItemId>, kids: seq<ItemId>,
      path: seq<ItemId>)
    requires OneMore(s, t, id, p) && p != Some(id)
    requires IsPath(s, path) && IsPath(t, path) && KidsAt(s, kids, path)
    requires p.Some? ==> !Below(s, path, p.value)
    ensures KidsAt(t, kids, path) && WalkKids(t, kids, path) == WalkKids(s, kids, path)
    decreases |s.items| - |path|, |kids|
  {
    if kids != [] {
      var k := kids[0];
      assert k in kids;
      PathStep(s, path, k);
      PathStep(t, path, k);
      PathBounded(s, path + [k]);
      if p.Some? && (p.value == k || Below(s, path + [k], p.value)) {
        BelowKid(s, path, k, p.value);
      }
      WalkUnchanged(s, t, id, p, Some(k), path + [k]);
      WalkKidsUnchanged(s, t, id, p, kids[1..], path);
    }
  }

  lemma NotBelowOwnPath(s: DocState, p: Option<ItemId>, path: seq<ItemId>)
    requires IsPath(s, path) && Tip(path) == p
    ensures p.Some? ==> !Below(s, path, p.value)
  {
    if p.Some? && Below(s, path, p.value) {
      NotBelowItself(s, path, p.value);
    }
  }

  /** The new item and what hangs below it, in document order. */
  ghost function NewPart(t: DocState, id: ItemId, p: Option<ItemId>, path: seq<ItemId>): seq<ItemId>
    requires Linked(t.items, t.children) && IsPath(t, path) && Tip(path) == p
    requires id in t.items && t.items[id].parent == p
  {
    PathStep(t, path, id);
    [id] + Walk(t, Some(id), path + [id])
  }

  /** At p itself the new id comes after p's larger children and before the smaller ones. */
  lemma WalkAtParent(s: DocState, t: DocState, id: ItemId, p: Option<ItemId>, path: seq<ItemId>)
    requires OneMore(s, t, id, p) && p != Some(id)
    requires IsPath(s, path) && IsPath(t, path) && Tip(path) == p
    ensures var k := SortDescending(Kids(s, p)); var b := Bigger(k, id);
      && KidsAt(s, b, path) && KidsAt(s, k[|b|..], path)
      && Walk(s, p, path) == WalkKids(s, b, path) + WalkKids(s, k[|b|..], path)
      && Walk(t, p, path) == WalkKids(s, b, path) + NewPart(t, id, p, path) + WalkKids(s, k[|b|..], path)
  {
    var k := SortDescending(Kids(s, p));
    var b := Bigger(k, id);
    var c := k[|b|..];
    KidsOfTip(s, p);
    assert k == b + c;
    WalkKidsConcat(s, b, c, path);
    OneMoreKids(s, t, id, p, p);
    NotBelowOwnPath(s, p, path);
    WalkKidsUnchanged(s, t, id, p, b, path);
    WalkKidsUnchanged(s, t, id, p, c, path);
    PathStep(t, path, id);
    OneKid(t, id, path);
    WalkKidsConcat(t, b, [id], path);
    WalkKidsConcat(t, b + [id], c, path);
  }

  lemma WalkKidsAround(s: DocState, before: seq<ItemId>, k: ItemId, after: seq<ItemId>, path: seq<ItemId>)
    requires Linked(s.items, s.children) && IsPath(s, path) && IsPath(s, path + [k])
    requires KidsAt(s, before, path) && KidsAt(s, after, path)
    ensures KidsAt(s, before + ([k] + after), path)
    ensures WalkKids(s, before + ([k] + after), path)
         == WalkKids(s, before, path) + (([k] + Walk(s, Some(k), path + [k])) + WalkKids(s, after, path))
  {
    OneKid(s, k, path);
    WalkKidsConcat(s, [k], after, path);
    WalkKidsConcat(s, before, [k] + after, path);
  }

  lemma CutAt(kids: seq<ItemId>, k: ItemId) returns (before: seq<ItemId>, after: seq<ItemId>)
    requires Descending(kids) && k in kids
    ensures kids == before + ([k] + after)
    ensures forall x | x in before || x in after :: x in kids && x != k
  {
    var i :| 0 <= i < |kids| && kids[i] == k;
    before, after := kids[..i], kids[i + 1..];
  }

  /** The parent's kids around the one that leads to p are walked as before. */
  lemma KidsAround(s: DocState, t: DocState, id: ItemId, p: Option<ItemId>, pp: seq<ItemId>, path: seq<ItemId>,
      k: ItemId)
    returns (head: seq<ItemId>, tail: seq<ItemId>)
    requires OneMore(s, t, id, p) && p != Some(id)
    requires IsPath(s, pp) && IsPath(t, pp) && Tip(pp) == p && path + [k] <= pp
    requires IsPath(s, path) && IsPath(t, path) && IsPath(s, path + [k]) && IsPath(t, path + [k])
    ensures id !in head
    ensures Walk(s, Tip(path), path) == head + (([k] + Walk(s, Some(k), path + [k])) + tail)
    ensures Walk(t, Tip(path), path) == head + (([k] + Walk(t, Some(k), path + [k])) + tail)
  {
    var parent := Tip(path);
    PathStep(s, path, k);
    KidsOfTip(s, parent);
    ParentIsAbove(s, p, pp, path);
    OneMoreKids(s, t, id, p, parent);
    var before, after := CutAt(SortDescending(Kids(s, parent)), k);
    OtherKids(s, t, id, p, pp, path, k, before);
    OtherKids(s, t, id, p, pp, path, k, after);
    WalkKidsAround(s, before, k, after, path);
    WalkKidsAround(t, before, k, after, path);
    NotWalked(s, id, before, path);
    head, tail := WalkKids(s, before, path), WalkKids(s, after, path);
  }

  lemma ParentIsAbove(s: DocState, p: Option<ItemId>, pp: seq<ItemId>, path: seq<ItemId>)
    requires IsPath(s, pp) && Tip(pp) == p && path < pp && IsPath(s, path)
    ensures Tip(path) != p
  {
    if Tip(path) == p {
      PathUnique(s, path, pp);
    }
  }

  /** Both walks agree before and after p's own subtree, and p itself comes right before that. */
  ghost predicate AgreeAround(s: DocState, t: DocState, id: ItemId, p: Option<ItemId>, pp: seq<ItemId>,
      path: seq<ItemId>, pre: seq<ItemId>, post: seq<ItemId>)
    requires Linked(s.items, s.children) && Linked(t.items, t.children)
    requires IsPath(s, pp) && IsPath(t, pp) && Tip(pp) == p && IsPath(s, path) && IsPath(t, path)
  {
    && Walk(s, Tip(path), path) == pre + Walk(s, p, pp) + post
    && Walk(t, Tip(path), path) == pre + Walk(t, p, pp) + post
    && id !in pre
    && if path == pp then pre == [] else pre != [] && Some(pre[|pre| - 1]) == p
  }

  lemma AroundStep(s: DocState, t: DocState, id: ItemId, p: Option<ItemId>, pp: seq<ItemId>, path: seq<ItemId>,
      k: ItemId, inner: seq<ItemId>, rest: seq<ItemId>)
    returns (pre: seq<ItemId>, post: seq<ItemId>)
    requires OneMore(s, t, id, p) && p != Some(id)
    requires IsPath(s, pp) && IsPath(t, pp) && Tip(pp) == p && path + [k] <= pp
    requires IsPath(s, path) && IsPath(t, path) && IsPath(s, path + [k]) && IsPath(t, path + [k])
    requires AgreeAround(s, t, id, p, pp, path + [k], inner, rest)
    ensures AgreeAround(s, t, id, p, pp, path, pre, post)
  {
    PathStep(s, path, k);
    var head, tail := KidsAround(s, t, id, p, pp, path, k);
    pre, post := head + [k] + inner, rest + tail;
    Rearrange(head, k, inner, Walk(s, p, pp), rest, tail, Walk(s, Some(k), path + [k]));
    Rearrange(head, k, inner, Walk(t, p, pp), rest, tail, Walk(t, Some(k), path + [k]));
    LastOf(head, k, inner);
    assert path != pp;
  }

  lemma AroundItself(s: DocState, t: DocState, id: ItemId, p: Option<ItemId>, pp: seq<ItemId>)
    requires Linked(s.items, s.children) && Linked(t.items, t.children)
    requires IsPath(s, pp) && IsPath(t, pp) && Tip(pp) == p
    ensures AgreeAround(s, t, id, p, pp, pp, [], [])
  {
    assert [] + Walk(s, p, pp) + [] == Walk(s, p, pp);
    assert [] + Walk(t, p, pp) + [] == Walk(t, p, pp);
  }

  lemma {:induction false} WalkAround(s: DocState, t: DocState, id: ItemId, p: Option<ItemId>, pp: seq<ItemId>,
      path: seq<ItemId>)
    returns (pre: seq<ItemId>, post: seq<ItemId>)
    requires OneMore(s, t, id, p) && p != Some(id)
    requires IsPath(s, pp) && IsPath(t, pp) && Tip(pp) == p && path <= pp && IsPath(s, path) && IsPath(t, path)
    ensures AgreeAround(s, t, id, p, pp, path, pre, post)
    decreases |pp| - |path|
  {
    hide WalkKids;
    if path == pp {
      pre, post := [], [];
      AroundItself(s, t, id, p, pp);
    } else {
      var k := pp[|path|];
      assert pp[..|path| + 1] == path + [k];
      PathPrefix(s, pp, |path| + 1);
      PathPrefix(t, pp, |path| + 1);
      var inner, rest := WalkAround(s, t, id, p, pp, path + [k]);
      pre, post := AroundStep(s, t, id, p, pp, path, k, inner, rest);
    }
  }

  lemma Rearrange(a: seq<ItemId>, k: ItemId, b: seq<ItemId>, w: seq<ItemId>, c: seq<ItemId>, d: seq<ItemId>,
      inner: seq<ItemId>)
    requires inner == b + w + c
    ensures a + (([k] + inner) + d) == (a + [k] + b) + w + (c + d)
  {
  }

  lemma LastOf(a: seq<ItemId>, k: ItemId, b: seq<ItemId>)
    ensures var pre := a + [k] + b;
      pre != [] && pre[|pre| - 1] == if b == [] then k else b[|b| - 1]
    ensures forall x :: x in a + [k] + b <==> x in a || x == k || x in b
  {
  }

  lemma OneKid(s: DocState, k: ItemId, path: seq<ItemId>)
    requires Linked(s.items, s.children) && IsPath(s, path) && IsPath(s, path + [k])
    ensures KidsAt(s, [k], path) && WalkKids(s, [k], path) == [k] + Walk(s, Some(k), path + [k])
  {
    PathStep(s, path, k);
    assert [k][1..] == [];
    assert WalkKids(s, [k][1..], path) == [];
  }

  lemma PathNotThroughNew(s: DocState, id: ItemId, path: seq<ItemId>)
    requires IsPath(s, path) && id !in s.items
    ensures Tip(path) != Some(id)
  {
  }

  lemma WalkedAreItems(s: DocState, kids: seq<ItemId>, path: seq<ItemId>, x: ItemId)
    requires Linked(s.items, s.children) && IsPath(s, path) && KidsAt(s, kids, path) && x in WalkKids(s, kids, path)
    ensures x in s.items
  {
    var k := WalkKidsSound(s, kids, path, x);
    if x != k {
      var q :| path + [k] < q && IsPath(s, q) && Tip(q) == Some(x);
    }
  }

  lemma NotWalked(s: DocState, id: ItemId, kids: seq<ItemId>, path: seq<ItemId>)
    requires Linked(s.items, s.children) && IsPath(s, path) && KidsAt(s, kids, path) && id !in s.items
    ensures id !in WalkKids(s, kids, path)
  {
    if id in WalkKids(s, kids, path) {
      WalkedAreItems(s, kids, path, id);
    }
  }

  lemma SameNext(path: seq<ItemId>, x: ItemId, k: ItemId, q: seq<ItemId>)
    requires path + [x] <= q && path + [k] <= q
    ensures x == k
  {
    assert q[|path|] == (path + [x])[|path|] == (path + [k])[|path|];
  }

  /** No other child of the path's end leads to p. */
  lemma OnlyOneKidLeads(s: DocState, p: Option<ItemId>, pp: seq<ItemId>, path: seq<ItemId>, k: ItemId, x: ItemId)
    requires IsPath(s, pp) && Tip(pp) == p && path + [k] <= pp && IsPath(s, path + [x])
    requires Some(x) == p || (p.Some? && Below(s, path + [x], p.value))
    ensures x == k
  {
    var q := PathThrough(s, path + [x], p.value);
    PathUnique(s, q, pp);
    SameNext(path, x, k, pp);
  }

  /** Siblings off the path to p are walked as before. */
  lemma {:induction false} OtherKids(s: DocState, t: DocState, id: ItemId, p: Option<ItemId>, pp: seq<ItemId>,
      path: seq<ItemId>, k: ItemId, kids: seq<ItemId>)
    requires OneMore(s, t, id, p) && p != Some(id)
    requires IsPath(s, pp) && Tip(pp) == p && path + [k] <= pp
    requires IsPath(s, path) && IsPath(t, path) && IsPath(s, path + [k]) && KidsAt(s, kids, path) && k !in kids
    ensures KidsAt(t, kids, path) && WalkKids(t, kids, path) == WalkKids(s, kids, path)
    decreases |kids|
  {
    if kids != [] {
      var x := kids[0];
      assert x in kids;
      PathStep(s, path, x);
      PathStep(t, path, x);
      if Some(x) == p || (p.Some? && Below(s, path + [x], p.value)) {
        OnlyOneKidLeads(s, p, pp, path, k, x);
      }
      WalkUnchanged(s, t, id, p, Some(x), path + [x]);
      OtherKids(s, t, id, p, pp, path, k, kids[1..]);
    }
  }

  // ---------- from document order to visible positions ----------

  lemma {:induction false} VisibleConcat(s: DocState, a: seq<ItemId>, b: seq<ItemId>)
    ensures Visible(s, a + b) == Visible(s, a) + Visible(s, b)
  {
    if a == [] {
      assert a + b == b;
    } else {
      VisibleConcat(s, a[1..], b);
      assert (a + b)[1..] == a[1..] + b;
      ConcatAssoc(if a[0] in s.items && !s.items[a[0]].deleted then [a[0]] else [], Visible(s, a[1..]), Visible(s, b));
    }
  }

  lemma {:induction false} VisibleMember(s: DocState, ids: seq<ItemId>, x: ItemId)
    ensures x in Visible(s, ids) <==> x in ids && x in s.items && !s.items[x].deleted
  {
    if ids != [] {
      VisibleMember(s, ids[1..], x);
      assert ids == [ids[0]] + ids[1..];
    }
  }

  lemma {:induction false} VisibleNoDuplicates(s: DocState, ids: seq<ItemId>)
    requires NoDuplicates(ids)
    ensures NoDuplicates(Visible(s, ids))
  {
    if ids != [] {
      VisibleNoDuplicates(s, ids[1..]);
      VisibleMember(s, ids[1..], ids[0]);
      NoDuplicatesConcat(if ids[0] in s.items && !s.items[ids[0]].deleted then [ids[0]] else [], Visible(s, ids[1..]));
    }
  }

  lemma {:induction false} VisibleUnchanged(s: DocState, t: DocState, id: ItemId, p: Option<ItemId>, ids: seq<ItemId>)
    requires OneMore(s, t, id, p) && id !in ids
    ensures Visible(t, ids) == Visible(s, ids)
  {
    if ids != [] {
      VisibleUnchanged(s, t, id, p, ids[1..]);
    }
  }

  /** Visible text under p's children that sort before the new id. */
  ghost function Crowd(s: DocState, p: Option<ItemId>, pp: seq<ItemId>, id: ItemId): seq<ItemId>
    requires Linked(s.items, s.children) && IsPath(s, pp) && Tip(pp) == p
  {
    KidsOfTip(s, p);
    Visible(s, WalkKids(s, Bigger(SortDescending(Kids(s, p)), id), pp))
  }

  /** The document order before and after the insertion, cut around p's larger children. */
  lemma DocumentSplit(s: DocState, t: DocState, id: ItemId, p: Option<ItemId>, pp: seq<ItemId>)
    returns (pre: seq<ItemId>, mid: seq<ItemId>, tail: seq<ItemId>)
    requires OneMore(s, t, id, p) && p != Some(id) && IsPath(s, pp) && IsPath(t, pp) && Tip(pp) == p
    ensures Visible(s, mid) == Crowd(s, p, pp, id)
    ensures DocumentOrder(s) == pre + mid + tail
    ensures DocumentOrder(t) == pre + mid + (NewPart(t, id, p, pp) + tail)
    ensures if p == None then pre == [] else pre != [] && Some(pre[|pre| - 1]) == p
  {
    var post;
    pre, post := WalkAround(s, t, id, p, pp, []);
    WalkAtParent(s, t, id, p, pp);
    KidsOfTip(s, p);
    var k := SortDescending(Kids(s, p));
    var b := Bigger(k, id);
    var low := WalkKids(s, k[|b|..], pp);
    mid, tail := WalkKids(s, b, pp), low + post;
    Regroup(pre, mid, NewPart(t, id, p, pp), low, post);
  }

  lemma Regroup(a: seq<ItemId>, b: seq<ItemId>, x: seq<ItemId>, c: seq<ItemId>, d: seq<ItemId>)
    ensures a + (b + c) + d == a + b + (c + d)
    ensures a + (b + x + c) + d == a + b + (x + (c + d))
  {
  }

  lemma OrderHasItemsOnly(s: DocState, id: ItemId)
    requires Linked(s.items, s.children) && id !in s.items
    ensures id !in DocumentOrder(s)
  {
    if id in DocumentOrder(s) {
      KidsOfTip(s, None);
      WalkedAreItems(s, SortDescending(Kids(s, None)), [], id);
    }
  }

  lemma VisibleThree(s: DocState, a: seq<ItemId>, b: seq<ItemId>, c: seq<ItemId>)
    ensures Visible(s, a + b + c) == Visible(s, a) + Visible(s, b) + Visible(s, c)
  {
    VisibleConcat(s, a + b, c);
    VisibleConcat(s, a, b);
  }

  lemma VisibleOne(s: DocState, x: ItemId)
    requires x in s.items && !s.items[x].deleted
    ensures Visible(s, [x]) == [x]
  {
    assert [x][1..] == [];
  }

  /** The visible ids before and after the insertion, cut at the new character. */
  lemma VisibleSplit(s: DocState, t: DocState, id: ItemId, p: Option<ItemId>, pp: seq<ItemId>)
    returns (a: seq<ItemId>, c: seq<ItemId>)
    requires OneMore(s, t, id, p) && p != Some(id) && IsPath(s, pp) && IsPath(t, pp) && Tip(pp) == p
    ensures VisibleIds(s) == a + Crowd(s, p, pp, id) + c
    ensures VisibleIds(t) == a + Crowd(s, p, pp, id) + (Visible(t, NewPart(t, id, p, pp)) + c)
    ensures p == None ==> a == []
    ensures p.Some? && !s.items[p.value].deleted ==> a != [] && Some(a[|a| - 1]) == p
  {
    var pre, mid, tail := DocumentSplit(s, t, id, p, pp);
    var added := NewPart(t, id, p, pp);
    OrderHasItemsOnly(s, id);
    NotInParts(id, pre, mid, tail);
    VisibleThree(s, pre, mid, tail);
    VisibleThree(t, pre, mid, added + tail);
    VisibleConcat(t, added, tail);
    VisibleUnchanged(s, t, id, p, pre);
    VisibleUnchanged(s, t, id, p, mid);
    VisibleUnchanged(s, t, id, p, tail);
    a, c := Visible(s, pre), Visible(s, tail);
    if p.Some? && !s.items[p.value].deleted {
      PathInItems(s, pp);
      assert p.value in pp;
      LastVisible(s, pre, p.value);
    }
  }

  lemma NotInParts(id: ItemId, a: seq<ItemId>, b: seq<ItemId>, c: seq<ItemId>)
    requires id !in a + b + c
    ensures id !in a && id !in b && id !in c
  {
    assert forall x :: x in a || x in b || x in c ==> x in a + b + c;
  }

  lemma LastVisible(s: DocState, ids: seq<ItemId>, x: ItemId)
    requires ids != [] && ids[|ids| - 1] == x && x in s.items && !s.items[x].deleted
    ensures var v := Visible(s, ids); v != [] && v[|v| - 1] == x
  {
    var front := ids[..|ids| - 1];
    assert ids == front + [x];
    VisibleConcat(s, front, [x]);
    VisibleOne(s, x);
  }

  // ---------- what hangs below an id that is not there yet ----------

  /** Items whose recorded parents lead up to the missing id. */
  ghost predicate HangsFrom(s: DocState, id: ItemId, chain: seq<ItemId>) {
    chain != [] && (
      var before, last := chain[..|chain| - 1], chain[|chain| - 1];
      && last in s.items
      && if before == [] then s.items[last].parent == Some(id)
         else HangsFrom(s, id, before) && s.items[last].parent == Tip(before))
  }

  /** No live item waits for id. */
  ghost predicate NothingHangs(s: DocState, id: ItemId) {
    forall chain | HangsFrom(s, id, chain) :: s.items[chain[|chain| - 1]].deleted
  }

  lemma {:induction false} ChainIsPath(s: DocState, t: DocState, id: ItemId, p: Option<ItemId>, pp: seq<ItemId>,
      chain: seq<ItemId>)
    requires OneMore(s, t, id, p) && IsPath(t, pp) && Tip(pp) == p && chain != []
    ensures IsPath(t, pp + [id] + chain) && id !in chain <==> HangsFrom(s, id, chain)
    ensures HangsFrom(s, id, chain) ==> chain[|chain| - 1] in s.items
    decreases |chain|
  {
    hide IsPath;
    var before, last := chain[..|chain| - 1], chain[|chain| - 1];
    assert chain == before + [last];
    assert pp + [id] + chain == (pp + [id] + before) + [last];
    PathStep(t, pp + [id] + before, last);
    PathStep(t, pp, id);
    if before == [] {
      assert pp + [id] + before == pp + [id];
    } else {
      ChainIsPath(s, t, id, p, pp, before);
    }
  }

  lemma PathPastNew(t: DocState, id: ItemId, pp: seq<ItemId>, chain: seq<ItemId>)
    requires IsPath(t, pp + [id] + chain)
    ensures id !in chain
  {
    var q := pp + [id] + chain;
    PathDistinct(t, q);
    assert q[|pp|] == id;
    assert forall j | 0 <= j < |chain| :: q[|pp| + 1 + j] == chain[j];
  }

  /** The new item shows up alone exactly when it is not born deleted and no live item waited for it. */
  lemma NewPartShows(s: DocState, t: DocState, id: ItemId, p: Option<ItemId>, pp: seq<ItemId>)
    requires OneMore(s, t, id, p) && IsPath(t, pp) && Tip(pp) == p
    ensures Visible(t, NewPart(t, id, p, pp)) == [id] <==> !t.items[id].deleted && NothingHangs(s, id)
  {
    hide IsPath, HangsFrom, NothingHangs, Walk, WalkKids, Linked;
    PathStep(t, pp, id);
    var below := Walk(t, Some(id), pp + [id]);
    VisibleConcat(t, [id], below);
    assert [id][1..] == [];
    ShowsBelow(s, t, id, p, pp);
    NewIsNotBelow(t, id, pp, below);
  }

  lemma NewIsNotBelow(t: DocState, id: ItemId, pp: seq<ItemId>, below: seq<ItemId>)
    requires Linked(t.items, t.children) && IsPath(t, pp + [id]) && below == Walk(t, Some(id), pp + [id])
    ensures id !in Visible(t, below)
  {
    VisibleMember(t, below, id);
    if id in below {
      WalkSound(t, Some(id), pp + [id], id);
      NotBelowItself(t, pp + [id], id);
    }
  }

  /** Below the new item nothing shows exactly when no live item was waiting for it. */
  lemma ShowsBelow(s: DocState, t: DocState, id: ItemId, p: Option<ItemId>, pp: seq<ItemId>)
    requires OneMore(s, t, id, p) && IsPath(t, pp) && Tip(pp) == p && IsPath(t, pp + [id])
    ensures Visible(t, Walk(t, Some(id), pp + [id])) == [] <==> NothingHangs(s, id)
  {
    hide IsPath, HangsFrom, Walk, WalkKids, Linked, Visible;
    var below := Walk(t, Some(id), pp + [id]);
    var shown := Visible(t, below);
    HasMember(shown);
    if shown != [] {
      var x :| x in shown;
      VisibleMember(t, below, x);
      var chain := FoundBelow(s, t, id, p, pp, x);
    } else {
      forall chain | HangsFrom(s, id, chain)
        ensures chain != [] && chain[|chain| - 1] in s.items && s.items[chain[|chain| - 1]].deleted
      {
        HangingIsFound(s, t, id, p, pp, chain);
        VisibleMember(t, below, chain[|chain| - 1]);
      }
    }
  }

  /** Below the new item the walk finds only items that were waiting for it ... */
  lemma FoundBelow(s: DocState, t: DocState, id: ItemId, p: Option<ItemId>, pp: seq<ItemId>, x: ItemId)
    returns (chain: seq<ItemId>)
    requires OneMore(s, t, id, p) && IsPath(t, pp) && Tip(pp) == p && IsPath(t, pp + [id])
    requires x in Walk(t, Some(id), pp + [id])
    ensures HangsFrom(s, id, chain) && chain[|chain| - 1] == x && x in s.items && x != id
  {
    hide IsPath, HangsFrom, Walk, WalkKids, Linked;
    WalkSound(t, Some(id), pp + [id], x);
    var q :| pp + [id] < q && IsPath(t, q) && Tip(q) == Some(x);
    chain := q[|pp| + 1..];
    assert q == pp + [id] + chain;
    PathPastNew(t, id, pp, chain);
    ChainIsPath(s, t, id, p, pp, chain);
  }

  /** ... and all of them. */
  lemma HangingIsFound(s: DocState, t: DocState, id: ItemId, p: Option<ItemId>, pp: seq<ItemId>, chain: seq<ItemId>)
    requires OneMore(s, t, id, p) && IsPath(t, pp) && Tip(pp) == p && IsPath(t, pp + [id])
    requires HangsFrom(s, id, chain)
    ensures chain != []
    ensures var x := chain[|chain| - 1]; x in Walk(t, Some(id), pp + [id]) && x in s.items && x != id
  {
    ChainIsPath(s, t, id, p, pp, chain);
    WalkComplete(t, Some(id), pp + [id], chain);
  }

  lemma OneMoreByInsert(s: DocState, op: Op)
    requires DocOk(s) && op.InsertOp? && op.id !in s.items
    ensures OneMore(s, Integrate(s, op), op.id, op.parent)
  {
    IntegrateKeepsLinks(s, op);
  }

  lemma IndexOfParent(ids: seq<ItemId>, i: nat, a: seq<ItemId>, rest: seq<ItemId>)
    requires NoDuplicates(ids) && 0 < i <= |ids| && ids == a + rest && a != [] && a[|a| - 1] == ids[i - 1]
    ensures |a| == i
  {
    assert ids[|a| - 1] == a[|a| - 1];
  }

  /** A cut after a lands the new element at |a| exactly when nothing came in before it or with it. */
  lemma LandsIff(v: seq<ItemId>, vt: seq<ItemId>, a: seq<ItemId>, crowd: seq<ItemId>, id: ItemId, added: seq<ItemId>,
      rest: seq<ItemId>)
    requires v == a + crowd + rest && vt == a + crowd + (added + rest) && id !in crowd
    ensures vt == v[..|a|] + [id] + v[|a|..] <==> crowd == [] && added == [id]
  {
    var w := v[..|a|] + [id] + v[|a|..];
    assert v[..|a|] == a && v[|a|..] == crowd + rest;
    assert w[|a|] == id;
    if crowd != [] {
      assert vt[|a|] == crowd[0];
    } else {
      assert crowd + rest == rest && a + crowd == a;
      if vt == w {
        assert |added| == 1;
        assert vt[|a|] == added[0];
      }
    }
  }

  lemma CutAtIndex(s: DocState, i: nat, a: seq<ItemId>, rest: seq<ItemId>)
    requires DocOk(s) && i <= |VisibleIds(s)| && VisibleIds(s) == a + rest
    requires if i == 0 then a == [] else a != [] && a[|a| - 1] == VisibleIds(s)[i - 1]
    ensures |a| == i
  {
    WalkVisitsReachableOnce(s);
    VisibleNoDuplicates(s, DocumentOrder(s));
    if i > 0 {
      IndexOfParent(VisibleIds(s), i, a, rest);
    }
  }

  lemma VisibleParent(s: DocState, i: nat)
    requires DocOk(s) && 0 < i <= |VisibleIds(s)|
    ensures var x := VisibleIds(s)[i - 1]; x in DocumentOrder(s) && x in s.items && !s.items[x].deleted
  {
    var x := VisibleIds(s)[i - 1];
    assert x in VisibleIds(s);
    VisibleMember(s, DocumentOrder(s), x);
  }

  lemma OneMoreLands(s: DocState, t: DocState, id: ItemId, i: nat, pp: seq<ItemId>)
    requires DocOk(s) && i <= |VisibleIds(s)|
    requires OneMore(s, t, id, ParentAt(s, i)) && IsPath(s, pp) && Tip(pp) == ParentAt(s, i)
    ensures var v := VisibleIds(s);
      VisibleIds(t) == v[..i] + [id] + v[i..] <==>
        Crowd(s, ParentAt(s, i), pp, id) == [] && !t.items[id].deleted && NothingHangs(s, id)
  {
    var p := ParentAt(s, i);
    PathNotThroughNew(s, id, pp);
    PathKept(s, t, pp);
    var a, rest := VisibleSplit(s, t, id, p, pp);
    var crowd := Crowd(s, p, pp, id);
    if i > 0 {
      VisibleParent(s, i);
    }
    ConcatAssoc(a, crowd, rest);
    CutAtIndex(s, i, a, crowd + rest);
    CrowdIsOld(s, p, pp, id);
    NewPartShows(s, t, id, p, pp);
    LandsIff(VisibleIds(s), VisibleIds(t), a, crowd, id, Visible(t, NewPart(t, id, p, pp)), rest);
  }

  /**
    `insert_char` at a visible index puts the new character exactly there, and nothing else, if and
    only if its id is unused, no delete and no live item waits for it, and no larger sibling under
    the chosen parent carries visible text.
   */
  lemma InsertCharLands(s: DocState, i: nat, c: char, pp: seq<ItemId>)
    requires DocOk(s) && i <= |VisibleIds(s)|
    requires IsPath(s, pp) && Tip(pp) == ParentAt(s, i)
    ensures var id := NextId(s); var v := VisibleIds(s);
      && DocOk(Typed(s, i, c))
      && (VisibleIds(Typed(s, i, c)) == v[..i] + [id] + v[i..] <==>
            && id !in s.items && id !in s.pendingDeletes && NothingHangs(s, id)
            && Crowd(s, ParentAt(s, i), pp, id) == [])
  {
    var op := InsertAt(s, i, c);
    var t := Typed(s, i, c);
    IntegrateKeepsLinks(AfterAlloc(s), op);
    if op.id in s.items {
      SameItemsSameIds(s, t);
    } else {
      OneMoreByInsert(AfterAlloc(s), op);
      assert OneMore(s, t, op.id, op.parent);
      OneMoreLands(s, t, op.id, i, pp);
    }
  }

  /** The document order and what is visible depend on the items alone. */
  lemma SameItemsSameIds(s: DocState, t: DocState)
    requires DocOk(s) && DocOk(t) && s.items == t.items
    ensures VisibleIds(s) == VisibleIds(t)
  {
    SameOrder(s, t);
    SameVisible(s, t, DocumentOrder(s));
  }

  lemma CrowdIsOld(s: DocState, p: Option<ItemId>, pp: seq<ItemId>, id: ItemId)
    requires Linked(s.items, s.children) && IsPath(s, pp) && Tip(pp) == p && id !in s.items
    ensures id !in Crowd(s, p, pp, id)
  {
    KidsOfTip(s, p);
    VisibleMember(s, WalkKids(s, Bigger(SortDescending(Kids(s, p)), id), pp), id);
  }

  /** Nothing has referred to the next local id yet. */
  ghost predicate NextIdUnused(s: DocState) {
    var id := NextId(s);
    id !in s.items && id !in s.pendingDeletes && forall x | x in s.items :: s.items[x].parent != Some(id)
  }

  lemma {:induction false} UnusedMeansNothingHangs(s: DocState, id: ItemId, chain: seq<ItemId>)
    requires forall x | x in s.items :: s.items[x].parent != Some(id)
    ensures !HangsFrom(s, id, chain)
    decreases |chain|
  {
    if |chain| > 1 {
      UnusedMeansNothingHangs(s, id, chain[..|chain| - 1]);
    }
  }

  /** In a document whose ids all sort below the next local one, every insertion lands at its index. */
  lemma SingleAgentInsertLands(s: DocState, i: nat, c: char)
    requires DocOk(s) && NextIdUnused(s) && i <= |VisibleIds(s)|
    requires forall x | x in s.items :: IdLess(x, NextId(s))
    ensures var v := VisibleIds(s);
      DocOk(Typed(s, i, c)) && VisibleIds(Typed(s, i, c)) == v[..i] + [NextId(s)] + v[i..]
  {
    hide Linked, IsPath, HangsFrom, VisibleIds, Integrate;
    var pp := PathToParent(s, i);
    forall chain ensures !HangsFrom(s, NextId(s), chain) {
      UnusedMeansNothingHangs(s, NextId(s), chain);
    }
    InsertCharLands(s, i, c, pp);
    LargestHasNoCrowd(s, ParentAt(s, i), pp, NextId(s));
  }

  lemma LargestHasNoCrowd(s: DocState, p: Option<ItemId>, pp: seq<ItemId>, id: ItemId)
    requires Linked(s.items, s.children) && IsPath(s, pp) && Tip(pp) == p
    requires forall x | x in s.items :: IdLess(x, id)
    ensures Crowd(s, p, pp, id) == []
  {
    KidsOfTip(s, p);
    HasMember(Bigger(SortDescending(Kids(s, p)), id));
  }

  lemma PathToParent(s: DocState, i: nat) returns (pp: seq<ItemId>)
    requires DocOk(s) && i <= |VisibleIds(s)|
    ensures IsPath(s, pp) && Tip(pp) == ParentAt(s, i)
  {
    pp := [];
    if i > 0 {
      VisibleParent(s, i);
      WalkSound(s, None, [], VisibleIds(s)[i - 1]);
      pp :| [] < pp && IsPath(s, pp) && Tip(pp) == ParentAt(s, i);
    }
  }

  // ---------- text_len ----------

  /** `text_len`: counts live items, reachable or not. */
  function TextLen(s: DocState): nat {
    |set id | id in s.items && !s.items[id].deleted|
  }

  lemma {:induction false} DistinctCount(ids: seq<ItemId>)
    requires NoDuplicates(ids)
    ensures |set x | x in ids| == |ids|
  {
    if ids != [] {
      var front, last := ids[..|ids| - 1], ids[|ids| - 1];
      DistinctCount(front);
      assert ids == front + [last];
      assert (set x | x in ids) == (set x | x in front) + {last};
    }
  }

  lemma {:induction false} ContentsLength(s: DocState, ids: seq<ItemId>)
    requires forall x | x in ids :: x in s.items
    ensures |Contents(s, ids)| == |ids|
  {
    if ids != [] {
      assert ids[0] in ids;
      ContentsLength(s, ids[1..]);
    }
  }

  lemma SmallerSubset(a: set<ItemId>, b: set<ItemId>)
    requires a <= b
    ensures |a| == |b| <==> a == b
  {
    if a != b {
      assert |b - a| > 0;
      assert b == a + (b - a);
    }
  }

  /** `text_len` is the length of the text exactly when every live item is reachable from the root. */
  lemma TextLenIsTextLength(s: DocState)
    requires DocOk(s)
    ensures TextLen(s) == |Text(s)| <==> forall id | id in s.items && !s.items[id].deleted :: Reachable(s, id)
  {
    var live := set id | id in s.items && !s.items[id].deleted;
    var v := VisibleIds(s);
    WalkVisitsReachableOnce(s);
    VisibleNoDuplicates(s, DocumentOrder(s));
    forall x ensures x in v <==> x in live && Reachable(s, x) {
      VisibleMember(s, DocumentOrder(s), x);
    }
    ContentsLength(s, v);
    DistinctCount(v);
    SmallerSubset((set x | x in v), live);
    assert (forall id | id in live :: Reachable(s, id)) <==> (set x | x in v) == live;
  }
}
