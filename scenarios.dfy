/** Small documents on which the two drain loops are compared. */
module Scenarios {
  import opened Seqs
  import opened Registry
  import opened Layout
  import opened Handler

  /** Views 0 > 1 > 2 nested in document order, each on its own marked node. */
  function Chain(): (doc: Doc)
    ensures Wf(doc) && DataMarked(doc)
  {
    Doc(map[1 := 0, 2 := 1], map[0 := 0, 1 := 1, 2 := 2], {0, 1, 2}, map[0 := 0, 1 := 1, 2 := 2])
  }

  /** View 1 nested in view 0, and inside it a marked node 2 that holds no view. */
  function WithEmptyMarker(): (doc: Doc)
    ensures Wf(doc) && DataMarked(doc)
  {
    Doc(map[1 := 0, 2 := 1], map[0 := 0, 1 := 1], {0, 1, 2}, map[0 := 0, 1 := 1])
  }

  /** View 1 nested in view 0. */
  function Pair(): (doc: Doc)
    ensures Wf(doc) && DataMarked(doc)
  {
    Doc(map[1 := 0], map[0 := 0, 1 := 1], {0, 1}, map[0 := 0, 1 := 1])
  }

  lemma ChainLookups()
    ensures Lookups(Chain(), [0, 1, 2]) == [Some(0), Some(1), Some(2)]
  {
    var doc := Chain();
    assert ViewOf(doc, 0) == Some(0) && ViewOf(doc, 1) == Some(1) && ViewOf(doc, 2) == Some(2);
    assert [0, 1, 2][..2] == [0, 1] && [0, 1][..1] == [0];
  }

  /** A marked-node list in increasing node order puts every node after its ancestors. */
  lemma IncreasingIsTreeOrder(doc: Doc, found: seq<Node>)
    requires Ordered(doc)
    requires forall i, j :: 0 <= i < j < |found| ==> found[i] < found[j]
    ensures forall i, j :: 0 <= i < |found| && 0 <= j < |found| && IsAncestor(doc, found[i], found[j]) ==> i < j
  {
    forall i, j | 0 <= i < |found| && 0 <= j < |found| && IsAncestor(doc, found[i], found[j])
      ensures i < j
    {
      AncestorOrSelfBelow(doc, found[i], doc.parent[found[j]]);
    }
  }

  lemma ChainQuery()
    ensures MarkerQuery(Chain(), 0, [0, 1, 2])
    ensures ViewsOf(Chain(), [0, 1, 2]) == [Some(0), Some(1), Some(2)]
  {
    IncreasingIsTreeOrder(Chain(), [0, 1, 2]);
    ChainLookups();
    var ws: seq<Option<ViewId>> := [Some(0), Some(1), Some(2)];
    DedupOfThree(ws[0], ws[1], ws[2]);
    assert [ws[0], ws[1], ws[2]] == ws;
  }

  /** A nested chain lays out every view once, outermost first: not only the outermost one. */
  method NestedChainLaysOutEach() returns (layouts: seq<ViewId>, outcome: Outcome)
    ensures outcome == Completed && layouts == [0, 1, 2]
  {
    ChainQuery();
    layouts, outcome := Resize(Chain(), [0, 1, 2]);
    assert Wrap(layouts) == [Some(0), Some(1), Some(2)];
  }

  lemma EmptyMarkerLookups()
    ensures Lookups(WithEmptyMarker(), [0, 1, 2]) == [Some(0), Some(1), None]
  {
    var doc := WithEmptyMarker();
    assert ViewOf(doc, 0) == Some(0) && ViewOf(doc, 1) == Some(1) && ViewOf(doc, 2) == None;
    assert [0, 1, 2][..2] == [0, 1] && [0, 1][..1] == [0];
  }

  lemma EmptyMarkerQuery()
    ensures MarkerQuery(WithEmptyMarker(), 0, [0, 1, 2])
    ensures ViewsOf(WithEmptyMarker(), [0, 1, 2]) == [Some(0), Some(1), None]
  {
    IncreasingIsTreeOrder(WithEmptyMarker(), [0, 1, 2]);
    EmptyMarkerLookups();
    var ws: seq<Option<ViewId>> := [Some(0), Some(1), None];
    DedupOfThree(ws[0], ws[1], ws[2]);
    assert [ws[0], ws[1], ws[2]] == ws;
  }

  /** On that working set the as-written loop throws at entry 1 and at no earlier one. */
  lemma EmptyMarkerThrowsAt()
    ensures Registered(WithEmptyMarker(), [Some(0), Some(1), None])
    ensures !ThrowsAt(WithEmptyMarker(), [Some(0), Some(1), None], 0)
    ensures ThrowsAt(WithEmptyMarker(), [Some(0), Some(1), None], 1)
  {
    var doc := WithEmptyMarker();
    var ws: seq<Option<ViewId>> := [Some(0), Some(1), None];
    assert ParentView(doc, 0) == None && ParentView(doc, 1) == Some(0);
    assert ws[1..][1] == None;
  }

  /** With a marked node that holds no view, the intended walk lays out every
      view before the `null` and then throws; the as-written one throws at
      view 1 already (its hoisted variable holds `null` after view 0, and `null`
      is pending), so view 1 is never laid out. */
  method EmptyMarkerStopsEarly() returns (intended: seq<ViewId>, o1: Outcome, asWritten: seq<ViewId>, o2: Outcome)
    ensures intended == [0, 1] && o1 == TypeError
    ensures asWritten == [0] && o2 == TypeError
  {
    EmptyMarkerQuery();
    EmptyMarkerThrowsAt();
    EmptyMarkerLookups();
    assert ViewOf(WithEmptyMarker(), [0, 1, 2][2]) == None;
    intended, o1 := Resize(WithEmptyMarker(), [0, 1, 2]);
    asWritten, o2 := ResizeAsWritten(WithEmptyMarker(), [0, 1, 2]);
    assert Wrap(intended) == [Some(0), Some(1)];
    assert Wrap(asWritten) == [Some(0)];
  }

  /** Given a child view before its parent view, the as-written walk does not
      climb and lays the child out first; the intended walk climbs to the parent. */
  method ChildFirstNotClimbed() returns (intended: seq<ViewId>, asWritten: seq<ViewId>)
    ensures intended == [0, 1] && AncestorsFirst(Pair(), intended)
    ensures asWritten == [1, 0] && !AncestorsFirst(Pair(), asWritten)
  {
    var doc := Pair();
    var ws := [Some(1), Some(0)];
    PairFacts();
    var o1, o2;
    intended, o1 := Drain(doc, ws);
    asWritten, o2 := DrainAsWritten(doc, ws);
    PairOrders(intended, asWritten);
  }

  /** In the pair, view 0 is the parent view of view 1 and the working set [1, 0] is closed. */
  lemma PairFacts()
    ensures ParentView(Pair(), 0) == None && ParentView(Pair(), 1) == Some(0)
    ensures ViewAncestor(Pair(), 0, 1)
    ensures Registered(Pair(), [Some(1), Some(0)])
    ensures ClosedUnderParent(Pair(), [Some(1), Some(0)])
  {
    assert ParentView(Pair(), 1) == Some(0);
  }

  /** Of the two orders of the pair, only the parent-first one puts ancestors first. */
  lemma PairOrders(intended: seq<ViewId>, asWritten: seq<ViewId>)
    requires multiset(Wrap(intended)) == multiset([Some(1), Some(0)])
    requires AncestorsFirst(Pair(), intended)
    requires Wrap(asWritten) == [Some(1), Some(0)]
    ensures intended == [0, 1] && AncestorsFirst(Pair(), intended)
    ensures asWritten == [1, 0] && !AncestorsFirst(Pair(), asWritten)
  {
    PairFacts();
    var w := Wrap(intended);
    assert |w| == |multiset(w)| == 2;
    assert Some(0) in multiset(w) && Some(1) in multiset(w);
    assert w[0] == Some(intended[0]) && w[1] == Some(intended[1]);
    assert asWritten[0] == 1 && asWritten[1] == 0;
  }

  lemma DedupOfThree<T>(a: T, b: T, c: T)
    requires a != b && b != c && a != c
    ensures Dedup([a, b, c]) == [a, b, c]
  {
    DedupSnoc([], a);
    assert [] + [a] == [a];
    assert Dedup([a]) == [a];
    DedupSnoc([a], b);
    assert [a] + [b] == [a, b];
    assert Dedup([a, b]) == [a, b];
    DedupSnoc([a, b], c);
    assert [a, b] + [c] == [a, b, c];
  }
}
