/**
  What local edits do to the visible text of consensus/src/crdt.rs: a delete strikes out the
  indexed character, and one agent's edits act on the text as on a plain string.
 */
module CrdtTyping {
  import opened Common
  import opened CrdtState
  import opened CrdtWalk
  import opened CrdtSync
  import opened CrdtDoc
  import opened CrdtLanding

  // ---------- deleting ----------

  function Strike(ids: seq<ItemId>, x: ItemId): seq<ItemId> {
    if ids == [] then [] else (if ids[0] == x then [] else [ids[0]]) + Strike(ids[1..], x)
  }

  lemma {:induction false} StrikeAbsent(ids: seq<ItemId>, x: ItemId)
    requires x !in ids
    ensures Strike(ids, x) == ids
  {
    if ids != [] {
      assert ids[0] in ids;
      StrikeAbsent(ids[1..], x);
    }
  }

  lemma {:induction false} StrikeAt(ids: seq<ItemId>, i: nat)
    requires NoDuplicates(ids) && i < |ids|
    ensures Strike(ids, ids[i]) == ids[..i] + ids[i + 1..]
  {
    if i == 0 {
      StrikeAbsent(ids[1..], ids[0]);
    } else {
      StrikeAt(ids[1..], i - 1);
      assert ids[1..][..i - 1] == ids[1..i] && ids[1..][i..] == ids[i + 1..];
      assert ids[..i] == [ids[0]] + ids[1..i];
    }
  }

  /** t is s with one more tombstone. */
  ghost predicate Buried(s: DocState, t: DocState, x: ItemId) {
    x in s.items && t.items == s.items[x := s.items[x].(deleted := true)]
  }

  lemma {:induction false} VisibleStrikes(s: DocState, t: DocState, ids: seq<ItemId>, x: ItemId)
    requires Buried(s, t, x)
    ensures Visible(t, ids) == Strike(Visible(s, ids), x)
  {
    if ids != [] {
      hide Strike;
      VisibleStrikes(s, t, ids[1..], x);
      StrikeCons(ids[0], Visible(s, ids[1..]), x);
      StrikeNone(Visible(s, ids[1..]), x);
    }
  }

  lemma StrikeCons(y: ItemId, rest: seq<ItemId>, x: ItemId)
    ensures Strike([y] + rest, x) == (if y == x then [] else [y]) + Strike(rest, x)
  {
    assert ([y] + rest)[1..] == rest;
  }

  lemma StrikeNone(rest: seq<ItemId>, x: ItemId)
    ensures Strike([] + rest, x) == [] + Strike(rest, x)
  {
    assert [] + rest == rest;
  }

  lemma VisibleIdsAreDistinct(s: DocState)
    requires DocOk(s)
    ensures NoDuplicates(VisibleIds(s))
  {
    WalkVisitsReachableOnce(s);
    VisibleNoDuplicates(s, DocumentOrder(s));
  }

  /** Whatever the document, `delete_char` strikes out exactly the indexed visible item, if its own id is new. */
  lemma DeleteCharRemoves(s: DocState, i: nat)
    requires DocOk(s) && i < |VisibleIds(s)|
    ensures var v := VisibleIds(s);
      && DocOk(Erased(s, i))
      && VisibleIds(Erased(s, i)) == if NextId(s) in s.appliedDeletes then v else v[..i] + v[i + 1..]
  {
    var t, v := Erased(s, i), VisibleIds(s);
    IntegrateKeepsLinks(AfterAlloc(s), DeleteAt(s, i).value);
    if NextId(s) in s.appliedDeletes {
      SameItemsSameIds(s, t);
    } else {
      VisibleParent(s, i + 1);
      SameOrder(s, t);
      VisibleStrikes(s, t, DocumentOrder(s), v[i]);
      VisibleIdsAreDistinct(s);
      StrikeAt(v, i);
    }
  }

  // ---------- from ids to text ----------

  lemma {:induction false} ContentsConcat(s: DocState, a: seq<ItemId>, b: seq<ItemId>)
    ensures Contents(s, a + b) == Contents(s, a) + Contents(s, b)
  {
    if a == [] {
      assert a + b == b;
    } else {
      ContentsConcat(s, a[1..], b);
      assert (a + b)[1..] == a[1..] + b;
      var head := if a[0] in s.items then [s.items[a[0]].content] else [];
      ConcatAssoc(head, Contents(s, a[1..]), Contents(s, b));
    }
  }

  lemma {:induction false} ContentsKept(s: DocState, t: DocState, ids: seq<ItemId>)
    requires forall x | x in ids :: x in s.items && x in t.items && t.items[x].content == s.items[x].content
    ensures Contents(t, ids) == Contents(s, ids) && |Contents(s, ids)| == |ids|
  {
    if ids != [] {
      assert ids[0] in ids;
      ContentsKept(s, t, ids[1..]);
    }
  }

  lemma VisibleAreItems(s: DocState)
    requires DocOk(s)
    ensures forall x | x in VisibleIds(s) :: x in s.items
  {
    forall x | x in VisibleIds(s) ensures x in s.items {
      VisibleMember(s, DocumentOrder(s), x);
    }
  }

  /** Cutting the ids cuts the text. */
  lemma TextCut(s: DocState, t: DocState, i: nat)
    requires DocOk(s) && i <= |VisibleIds(s)|
    requires forall x | x in s.items :: x in t.items && t.items[x].content == s.items[x].content
    ensures |Text(s)| == |VisibleIds(s)|
    ensures Contents(t, VisibleIds(s)[..i]) == Text(s)[..i] && Contents(t, VisibleIds(s)[i..]) == Text(s)[i..]
  {
    var v := VisibleIds(s);
    VisibleAreItems(s);
    assert v == v[..i] + v[i..];
    ContentsConcat(s, v[..i], v[i..]);
    ContentsKept(s, t, v);
    ContentsKept(s, t, v[..i]);
    ContentsKept(s, t, v[i..]);
  }

  lemma InsertedText(s: DocState, t: DocState, id: ItemId, i: nat, c: char)
    requires DocOk(s) && DocOk(t) && i <= |VisibleIds(s)| && id !in s.items && id in t.items
    requires t.items == s.items[id := t.items[id]] && t.items[id].content == c
    requires VisibleIds(t) == VisibleIds(s)[..i] + [id] + VisibleIds(s)[i..]
    ensures |Text(s)| == |VisibleIds(s)| && Text(t) == Text(s)[..i] + [c] + Text(s)[i..]
  {
    var v := VisibleIds(s);
    TextCut(s, t, i);
    ContentsConcat(t, v[..i] + [id], v[i..]);
    ContentsConcat(t, v[..i], [id]);
    assert [id][1..] == [] && Contents(t, [id]) == [c];
  }

  lemma DeletedText(s: DocState, t: DocState, x: ItemId, i: nat)
    requires DocOk(s) && DocOk(t) && i < |VisibleIds(s)| && Buried(s, t, x)
    requires VisibleIds(t) == VisibleIds(s)[..i] + VisibleIds(s)[i + 1..]
    ensures |Text(s)| == |VisibleIds(s)| && Text(t) == Text(s)[..i] + Text(s)[i + 1..]
  {
    TextCut(s, t, i);
    TextCut(s, t, i + 1);
    ContentsConcat(t, VisibleIds(s)[..i], VisibleIds(s)[i + 1..]);
  }

  // ---------- one agent ----------

  datatype Edit = InsertEdit(index: nat, content: char) | DeleteEdit(index: nat)

  /**
    What an edit does to a plain string; an insertion past the end goes to the front, a deletion there does
    nothing.
   */
  function Edited(text: string, e: Edit): string {
    match e
    case InsertEdit(i, c) => if i <= |text| then text[..i] + [c] + text[i..] else [c] + text
    case DeleteEdit(i) => if i < |text| then text[..i] + text[i + 1..] else text
  }

  function TextAfter(edits: seq<Edit>): string {
    if edits == [] then "" else Edited(TextAfter(edits[..|edits| - 1]), edits[|edits| - 1])
  }

  function EditDoc(s: DocState, e: Edit): DocState
    requires DocOk(s)
  {
    match e
    case InsertEdit(i, c) => Typed(s, i, c)
    case DeleteEdit(i) => Erased(s, i)
  }

  predicate OwnEarlier(s: DocState, id: ItemId) {
    id.agent == s.agent && id.number < s.nextSeq
  }

  /** Every id is this agent's own and already allocated, and nothing refers to an absent item. */
  ghost predicate SoloOk(s: DocState) {
    && DocOk(s) && s.pendingDeletes == {}
    && (forall id | id in s.items ::
      OwnEarlier(s, id) && (s.items[id].parent.Some? ==> s.items[id].parent.value in s.items))
    && forall id | id in s.appliedDeletes :: OwnEarlier(s, id)
  }

  lemma SoloIdUnused(s: DocState)
    requires SoloOk(s)
    ensures NextIdUnused(s) && NextId(s) !in s.appliedDeletes
    ensures forall x | x in s.items :: IdLess(x, NextId(s))
  {
  }

  lemma SoloTypedState(s: DocState, i: nat, c: char)
    requires SoloOk(s) && i <= |VisibleIds(s)|
    ensures SoloOk(Typed(s, i, c))
    ensures Typed(s, i, c).items == s.items[NextId(s) := SeqItem(NextId(s), ParentAt(s, i), c, false)]
  {
    hide Linked, VisibleIds, Walk;
    var op := InsertAt(s, i, c);
    IntegrateKeepsLinks(AfterAlloc(s), op);
    if i > 0 { VisibleParent(s, i); }
  }

  lemma SoloTyped(s: DocState, i: nat, c: char)
    requires SoloOk(s)
    ensures SoloOk(Typed(s, i, c)) && Text(Typed(s, i, c)) == Edited(Text(s), InsertEdit(i, c))
  {
    hide Linked, VisibleIds, Integrate, Text, NextIdUnused;
    var t, id := Typed(s, i, c), NextId(s);
    var at := if i <= |VisibleIds(s)| then i else 0;
    assert Typed(s, at, c) == t;
    SoloIdUnused(s);
    SingleAgentInsertLands(s, at, c);
    SoloTypedState(s, at, c);
    InsertedText(s, t, id, at, c);
    assert Text(s)[..0] + [c] + Text(s)[0..] == [c] + Text(s);
  }

  lemma SoloErasedState(s: DocState, i: nat)
    requires SoloOk(s) && i < |VisibleIds(s)|
    ensures SoloOk(Erased(s, i)) && Buried(s, Erased(s, i), VisibleIds(s)[i])
  {
    hide Linked, VisibleIds;
    IntegrateKeepsLinks(AfterAlloc(s), DeleteAt(s, i).value);
    VisibleParent(s, i + 1);
  }

  lemma SoloErased(s: DocState, i: nat)
    requires SoloOk(s)
    ensures SoloOk(Erased(s, i)) && Text(Erased(s, i)) == Edited(Text(s), DeleteEdit(i))
  {
    hide Linked, VisibleIds, Integrate, Text, Buried;
    TextCut(s, s, 0);
    if i < |VisibleIds(s)| {
      SoloIdUnused(s);
      SoloErasedState(s, i);
      DeleteCharRemoves(s, i);
      DeletedText(s, Erased(s, i), VisibleIds(s)[i], i);
    }
  }

  /** A document typed by one agent from scratch. */
  ghost function DocAfter(agent: nat, edits: seq<Edit>): (s: DocState)
    ensures SoloOk(s)
  {
    if edits == [] then NewDoc(agent)
    else
      var s, e := DocAfter(agent, edits[..|edits| - 1]), edits[|edits| - 1];
      if e.InsertEdit? then SoloTyped(s, e.index, e.content); EditDoc(s, e)
      else SoloErased(s, e.index); EditDoc(s, e)
  }

  /** Every run of one agent's inserts and deletes shows the string that the same edits give. */
  lemma {:induction false} SingleAgentText(agent: nat, edits: seq<Edit>)
    ensures Text(DocAfter(agent, edits)) == TextAfter(edits)
    decreases |edits|
  {
    if edits == [] {
      EmptyText(agent);
    } else {
      var front, e := edits[..|edits| - 1], edits[|edits| - 1];
      SingleAgentText(agent, front);
      if e.InsertEdit? {
        SoloTyped(DocAfter(agent, front), e.index, e.content);
      } else {
        SoloErased(DocAfter(agent, front), e.index);
      }
    }
  }

  lemma EmptyText(agent: nat)
    ensures Text(NewDoc(agent)) == ""
  {
    NothingAtRoot(NewDoc(agent));
  }

  // ---------- instances of what can go wrong ----------

  lemma NothingAtRoot(s: DocState)
    requires Linked(s.items, s.children) && Kids(s, None) == []
    ensures DocumentOrder(s) == [] && Text(s) == ""
  {
    var none: seq<ItemId> := [];
    KidsOfTip(s, None);
    assert SortDescending(none) == [];
    assert DocumentOrder(s) == WalkKids(s, SortDescending(Kids(s, None)), []);
  }

  /** A document of live items without children shows them, largest id first. */
  lemma {:induction false} FlatWalk(s: DocState, kids: seq<ItemId>)
    requires Linked(s.items, s.children) && KidsAt(s, kids, [])
    requires forall x | x in kids :: !s.items[x].deleted && Kids(s, Some(x)) == []
    ensures WalkKids(s, kids, []) == kids && Visible(s, kids) == kids
  {
    hide Linked, IsPath, SortDescending, KidsIn, Walk;
    if kids != [] {
      var x := kids[0];
      assert x in kids;
      LeafWalk(s, x);
      FlatWalk(s, kids[1..]);
    }
  }

  lemma LeafWalk(s: DocState, x: ItemId)
    requires Linked(s.items, s.children) && x in s.items && s.items[x].parent == None && Kids(s, Some(x)) == []
    ensures IsPath(s, []) && IsPath(s, [] + [x]) && Tip([] + [x]) == Some(x) && Walk(s, Some(x), [] + [x]) == []
  {
    PathStep(s, [], x);
    KidsOfTip(s, Some(x));
    assert SortDescending(Kids(s, Some(x))) == [];
  }

  lemma FlatDocument(s: DocState, kids: seq<ItemId>)
    requires Linked(s.items, s.children) && Descending(kids)
    requires forall x :: x in kids <==> x in Kids(s, None)
    requires forall x | x in kids :: x in s.items && !s.items[x].deleted && Kids(s, Some(x)) == []
    ensures VisibleIds(s) == kids
  {
    KidsOfTip(s, None);
    DescendingUnique(SortDescending(Kids(s, None)), kids);
    FlatWalk(s, kids);
  }

  /** A larger agent's character is already at the front: inserting at index 0 lands at index 1. */
  lemma InsertLandsElsewhere(c: char, d: char)
    ensures var s := Integrate(NewDoc(1), InsertOp(ItemId(2, 1), None, c));
      && DocOk(s) && DocOk(Typed(s, 0, d))
      && VisibleIds(s) == [ItemId(2, 1)] && VisibleIds(Typed(s, 0, d)) == [ItemId(2, 1), ItemId(1, 1)]
  {
    hide VisibleIds, Linked;
    var a, b := ItemId(2, 1), ItemId(1, 1);
    var s := Integrate(NewDoc(1), InsertOp(a, None, c));
    NewDocDescribed(1);
    IntegrateKeepsLinks(NewDoc(1), InsertOp(a, None, c));
    assert Kids(s, None) == [a];
    FlatDocument(s, [a]);
    var t := Typed(s, 0, d);
    IntegrateKeepsLinks(AfterAlloc(s), InsertAt(s, 0, d));
    assert InsertAt(s, 0, d) == InsertOp(b, None, d);
    assert Kids(t, None) == [a, b];
    FlatDocument(t, [a, b]);
  }

  /** An orphan is counted by `text_len` but not shown. */
  lemma OrphanCounted(c: char)
    ensures var s := Integrate(NewDoc(1), InsertOp(ItemId(2, 2), Some(ItemId(2, 1)), c));
      DocOk(s) && TextLen(s) == 1 && Text(s) == ""
  {
    var s := Integrate(NewDoc(1), InsertOp(ItemId(2, 2), Some(ItemId(2, 1)), c));
    IntegrateKeepsLinks(NewDoc(1), InsertOp(ItemId(2, 2), Some(ItemId(2, 1)), c));
    NothingAtRoot(s);
    assert (set id | id in s.items && !s.items[id].deleted) == {ItemId(2, 2)};
  }
}
