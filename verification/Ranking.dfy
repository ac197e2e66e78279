/** Ranking contacts by distance, and which ids are the k nearest of a set. */
module Ranking {
  import opened Common
  import opened XorMetric

  predicate Closer(target: NodeId, a: NodeId, b: NodeId)
    ensures Closer(target, a, b) <==> Dist(target, a) < Dist(target, b)
  {
    LexIsNumeric(Distance(target, a), Distance(target, b));
    LexLess(Distance(target, a), Distance(target, b))
  }

  ghost predicate DistinctIds(cs: seq<Contact>) {
    forall i, j | 0 <= i < j < |cs| :: cs[i].id != cs[j].id
  }

  /** Strictly ascending distance from the target. */
  ghost predicate Ranked(target: NodeId, cs: seq<Contact>) {
    forall i, j | 0 <= i < j < |cs| :: Dist(target, cs[i].id) < Dist(target, cs[j].id)
  }

  function IdSet(cs: seq<Contact>): set<NodeId> {
    set c | c in cs :: c.id
  }

  lemma ConsRanked(target: NodeId, c: Contact, cs: seq<Contact>)
    requires Ranked(target, cs) && forall x | x in cs :: Dist(target, c.id) < Dist(target, x.id)
    ensures Ranked(target, [c] + cs)
  {
    assert forall i | 0 <= i < |cs| :: cs[i] in cs;
  }

  lemma HeadIsFirst(target: NodeId, cs: seq<Contact>)
    requires Ranked(target, cs) && cs != []
    ensures forall x :: x in cs <==> x == cs[0] || x in cs[1..]
    ensures forall x | x in cs[1..] :: Dist(target, cs[0].id) < Dist(target, x.id)
  {
  }

  function InsertByDistance(target: NodeId, c: Contact, cs: seq<Contact>): (r: seq<Contact>)
    requires Ranked(target, cs) && c.id !in IdSet(cs)
    ensures Ranked(target, r) && |r| == |cs| + 1
    ensures forall x :: x in r <==> x == c || x in cs
  {
    if cs == [] then [c]
    else
      assert cs[0].id in IdSet(cs);
      DistInjective(target, c.id, cs[0].id);
      HeadIsFirst(target, cs);
      if !Closer(target, cs[0].id, c.id) then
        ConsRanked(target, c, cs);
        [c] + cs
      else
        var rest := InsertByDistance(target, c, cs[1..]);
        ConsRanked(target, cs[0], rest);
        [cs[0]] + rest
  }

  /** `sort_by` on distance; distinct ids leave no ties. */
  function SortByDistance(target: NodeId, cs: seq<Contact>): (r: seq<Contact>)
    requires DistinctIds(cs)
    ensures Ranked(target, r) && |r| == |cs|
    ensures forall x :: x in r <==> x in cs
  {
    if cs == [] then []
    else
      assert forall x :: x in cs <==> x == cs[0] || x in cs[1..];
      assert forall c | c in cs[1..] :: c.id != cs[0].id;
      InsertByDistance(target, cs[0], SortByDistance(target, cs[1..]))
  }

  lemma RankedAreDistinct(target: NodeId, cs: seq<Contact>)
    requires Ranked(target, cs)
    ensures DistinctIds(cs)
  {
  }

  lemma {:induction false} DistinctCount(cs: seq<Contact>)
    requires DistinctIds(cs)
    ensures |IdSet(cs)| == |cs|
  {
    if cs != [] {
      var front, last := cs[..|cs| - 1], cs[|cs| - 1];
      DistinctCount(front);
      assert cs == front + [last];
      assert IdSet(cs) == IdSet(front) + {last.id};
    }
  }

  /** cs holds the min(k, |S|) ids of S closest to the target, closest first. */
  ghost predicate IsNearest(target: NodeId, S: set<NodeId>, k: nat, cs: seq<Contact>) {
    && Ranked(target, cs)
    && IdSet(cs) <= S
    && |cs| == Min(k, |S|)
    && forall x, y | x in S && x !in IdSet(cs) && y in IdSet(cs) :: Dist(target, y) < Dist(target, x)
  }

  lemma HeadBeatsTail(target: NodeId, cs: seq<Contact>, m: nat, cx: Contact, cy: Contact)
    requires Ranked(target, cs) && m <= |cs| && cx in cs && cx !in cs[..m] && cy in cs[..m]
    ensures Dist(target, cy.id) < Dist(target, cx.id)
  {
    var i :| 0 <= i < |cs| && cs[i] == cx;
    var j :| 0 <= j < m && cs[..m][j] == cy;
    assert forall q | 0 <= q < m :: cs[q] in cs[..m];
  }

  /** The first k of a full ranking are the k nearest. */
  lemma TakeIsNearest(target: NodeId, cs: seq<Contact>, k: nat)
    requires Ranked(target, cs)
    ensures IsNearest(target, IdSet(cs), k, cs[..Min(k, |cs|)])
  {
    RankedAreDistinct(target, cs);
    DistinctCount(cs);
    var m := Min(k, |cs|);
    forall x, y | x in IdSet(cs) && x !in IdSet(cs[..m]) && y in IdSet(cs[..m])
      ensures Dist(target, y) < Dist(target, x) {
      var cx :| cx in cs && cx.id == x;
      var cy :| cy in cs[..m] && cy.id == y;
      HeadBeatsTail(target, cs, m, cx, cy);
    }
  }

  /** No other choice of k ids is as close: the nearest ids are determined by the set. */
  lemma NearestUnique(target: NodeId, S: set<NodeId>, k: nat, a: seq<Contact>, b: seq<Contact>)
    requires IsNearest(target, S, k, a) && IsNearest(target, S, k, b)
    ensures IdSet(a) == IdSet(b)
  {
    RankedAreDistinct(target, a);
    RankedAreDistinct(target, b);
    DistinctCount(a);
    DistinctCount(b);
    forall x ensures x in IdSet(a) <==> x in IdSet(b) {
      if x in IdSet(a) && x !in IdSet(b) {
        EqualSizes(IdSet(a), IdSet(b), x);
        var y :| y in IdSet(b) && y !in IdSet(a);
        NoSwap(target, S, k, a, b, x, y);
      } else if x in IdSet(b) && x !in IdSet(a) {
        EqualSizes(IdSet(b), IdSet(a), x);
        var y :| y in IdSet(a) && y !in IdSet(b);
        NoSwap(target, S, k, b, a, x, y);
      }
    }
  }

  lemma NoSwap(target: NodeId, S: set<NodeId>, k: nat, a: seq<Contact>, b: seq<Contact>, x: NodeId, y: NodeId)
    requires IsNearest(target, S, k, a) && IsNearest(target, S, k, b) && x in IdSet(a) && y in IdSet(b)
    ensures x in IdSet(b) || y in IdSet(a)
  {
  }

  lemma EqualSizes(a: set<NodeId>, b: set<NodeId>, x: NodeId)
    requires |a| == |b| && x in a && x !in b
    ensures exists y :: y in b && y !in a
  {
    if b <= a {
      SubsetSize(b, a - {x});
    }
  }

  /**
    Truncating a shortlist loses nothing: the k nearest of what was kept plus what came in
    are the k nearest of everything ever known.
   */
  lemma NearestOfMore(target: NodeId, known: set<NodeId>, news: set<NodeId>, k: nat, kept: seq<Contact>,
      cs: seq<Contact>)
    requires IsNearest(target, known, k, kept)
    requires IsNearest(target, IdSet(kept) + news, k, cs)
    ensures IsNearest(target, known + news, k, cs)
  {
    var A := IdSet(kept);
    var B := A + news;
    RankedAreDistinct(target, kept);
    DistinctCount(kept);
    RankedAreDistinct(target, cs);
    DistinctCount(cs);
    SubsetSize(A, known);
    SubsetSize(A, B);
    SubsetSize(B, known + news);
    SubsetSize(known, known + news);
    if A == known {
      assert B == known + news;
    } else {
      var z :| z in known && z !in A;
      SubsetSize(A + {z}, known);
      assert |A| == k && |cs| == k;
      forall x, y | x in known + news && x !in IdSet(cs) && y in IdSet(cs) ensures Dist(target, y) < Dist(target, x) {
        if x !in B {
          FartherThanKept(target, known, k, kept, IdSet(cs), B, x, y);
        }
      }
    }
  }

  lemma FartherThanKept(target: NodeId, known: set<NodeId>, k: nat, kept: seq<Contact>, C: set<NodeId>, B: set<NodeId>,
      x: NodeId, y: NodeId)
    requires IsNearest(target, known, k, kept) && IdSet(kept) <= B && C <= B
    requires |C| == |IdSet(kept)| && y in C && x in known && x !in B
    requires forall u, v | u in B && u !in C && v in C :: Dist(target, v) < Dist(target, u)
    ensures Dist(target, y) < Dist(target, x)
  {
    if y !in IdSet(kept) {
      EqualSizes(C, IdSet(kept), y);
      var a :| a in IdSet(kept) && a !in C;
      assert Dist(target, y) < Dist(target, a) < Dist(target, x);
    }
  }
}
