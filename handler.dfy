/** The `window.resize` handler of StickyView: query every node carrying the
    marker class, collect their views with `$.fn.views`, then drain the
    working set. `Resize` uses the ancestor walk as intended; `ResizeAsWritten`
    uses the walk as the source writes it. */
module Handler {
  import opened Seqs
  import opened Registry
  import opened Layout

  /** `$(MARKER_SELECTOR)`: every marked node inside the document whose root
      node is `top`, each once, in document order, so every node after its
      ancestors. Marked nodes outside the document (the root of a view that was
      never placed) are not found. */
  ghost predicate MarkerQuery(doc: Doc, top: Node, found: seq<Node>)
    requires Ordered(doc)
  {
    && top !in doc.parent
    && NoDup(found)
    && (forall n :: n in found <==> n in doc.marked && AncestorOrSelf(doc, top, n))
    && (forall i, j :: 0 <= i < |found| && 0 <= j < |found| && IsAncestor(doc, found[i], found[j]) ==> i < j)
  }

  /** A node above a node of the document is in the document too. */
  lemma InDocument(doc: Doc, top: Node, a: Node, n: Node)
    requires Ordered(doc) && top !in doc.parent
    requires AncestorOrSelf(doc, top, n) && AncestorOrSelf(doc, a, n)
    ensures AncestorOrSelf(doc, top, a)
  {
    AncestorsAreChained(doc, top, a, n);
  }

  /** Every view the lookups return has a root node. */
  lemma LookupsRegistered(doc: Doc, found: seq<Node>)
    requires Wf(doc)
    ensures Registered(doc, ViewsOf(doc, found))
  {
    var ls := Lookups(doc, found);
    forall v | Some(v) in ViewsOf(doc, found) ensures v in doc.roots {
      DedupMember(ls, Some(v));
      var k :| 0 <= k < |ls| && ls[k] == Some(v);
      assert ViewOf(doc, found[k]) == Some(v);
    }
  }

  /** The node of a view found by the marker query is itself found, at a
      position no later than any node that looks that view up. */
  lemma RootFound(doc: Doc, top: Node, found: seq<Node>, k: nat, v: ViewId)
    requires Wf(doc) && DataMarked(doc) && MarkerQuery(doc, top, found)
    requires k < |found| && ViewOf(doc, found[k]) == Some(v)
    ensures doc.roots[v] in found && IndexOf(found, doc.roots[v]) <= k
    ensures IndexOf(Lookups(doc, found), Some(v)) <= IndexOf(found, doc.roots[v])
  {
    var r := doc.roots[v];
    assert r in doc.marked;
    InDocument(doc, top, r, found[k]);
    var kr := IndexOf(found, r);
    if r != found[k] {
      assert IsAncestor(doc, r, found[k]);
    }
    ViewOfOwn(doc, r);
    assert Lookups(doc, found)[kr] == Some(v);
  }

  /** The views the marker query yields include the parent view of each of them. */
  lemma MarkerQueryClosed(doc: Doc, top: Node, found: seq<Node>)
    requires Wf(doc) && DataMarked(doc) && MarkerQuery(doc, top, found)
    ensures ClosedUnderParent(doc, ViewsOf(doc, found))
  {
    var ls := Lookups(doc, found);
    var ws := ViewsOf(doc, found);
    DedupMembers(ls);
    forall i | 0 <= i < |ws| && ws[i].Some? && ws[i].value in doc.roots && ParentView(doc, ws[i].value).Some?
      ensures ParentView(doc, ws[i].value) in ws
    {
      ParentSeenFirst(doc, top, found, ws[i].value, ParentView(doc, ws[i].value).value);
    }
  }

  /** The marker query finds the node of a parent view before any node that
      looks its child view up. */
  lemma ParentSeenFirst(doc: Doc, top: Node, found: seq<Node>, v: ViewId, p: ViewId)
    requires Wf(doc) && DataMarked(doc) && MarkerQuery(doc, top, found)
    requires Some(v) in Lookups(doc, found) && v in doc.roots && ParentView(doc, v) == Some(p)
    ensures Some(p) in Lookups(doc, found)
    ensures IndexOf(Lookups(doc, found), Some(p)) < IndexOf(Lookups(doc, found), Some(v))
  {
    var ls := Lookups(doc, found);
    var kv := IndexOf(ls, Some(v));
    RootFound(doc, top, found, kv, v);
    var rp := doc.roots[p];
    assert rp in doc.marked;
    IsAncestorTrans(doc, rp, doc.roots[v], found[kv]);
    InDocument(doc, top, rp, found[kv]);
    var kp := IndexOf(found, rp);
    ViewOfOwn(doc, rp);
    assert ls[kp] == Some(p);
  }

  /** The views the marker query yields list each parent view before its children. */
  lemma MarkerQueryParentsPrecede(doc: Doc, top: Node, found: seq<Node>)
    requires Wf(doc) && DataMarked(doc) && MarkerQuery(doc, top, found)
    ensures ParentsPrecede(doc, ViewsOf(doc, found))
  {
    var ws := ViewsOf(doc, found);
    forall i, j | (0 <= i < |ws| && 0 <= j < |ws| && ws[j].Some? && ws[j].value in doc.roots
                   && ParentView(doc, ws[j].value).Some? && ParentView(doc, ws[j].value) == ws[i])
      ensures i < j
    {
      ParentBeforeChild(doc, top, found, i, j);
    }
  }

  lemma ParentBeforeChild(doc: Doc, top: Node, found: seq<Node>, i: nat, j: nat)
    requires Wf(doc) && DataMarked(doc) && MarkerQuery(doc, top, found)
    requires i < |ViewsOf(doc, found)| && j < |ViewsOf(doc, found)|
    requires ViewsOf(doc, found)[j].Some? && ViewsOf(doc, found)[j].value in doc.roots
    requires ParentView(doc, ViewsOf(doc, found)[j].value) == ViewsOf(doc, found)[i]
    requires ViewsOf(doc, found)[i].Some?
    ensures i < j
  {
    var ls := Lookups(doc, found);
    var ws := ViewsOf(doc, found);
    DedupMember(ls, ws[j]);
    ParentSeenFirst(doc, top, found, ws[j].value, ws[i].value);
    if j < i {
      DedupOrderAt(ls, j, i);
    }
  }

  /** The marker query yields `null` exactly when a marked node of the document holds no view. */
  lemma MarkerQueryNull(doc: Doc, top: Node, found: seq<Node>)
    requires Wf(doc) && MarkerQuery(doc, top, found)
    ensures None in ViewsOf(doc, found) <==>
      exists n :: n in doc.marked && AncestorOrSelf(doc, top, n) && n !in doc.data
  {
    var ls := Lookups(doc, found);
    DedupMembers(ls);
    if None in ls {
      var k :| 0 <= k < |ls| && ls[k] == None;
      ViewOfMarked(doc, found[k]);
    }
    if exists n :: n in doc.marked && AncestorOrSelf(doc, top, n) && n !in doc.data {
      var n :| n in doc.marked && AncestorOrSelf(doc, top, n) && n !in doc.data;
      var k := IndexOf(found, n);
      ViewOfMarked(doc, n);
      assert ls[k] == None;
    }
  }

  /** Laying out a prefix of what the marker query yields, in its order, puts ancestors first. */
  lemma MarkerQueryAncestorsFirst(doc: Doc, top: Node, found: seq<Node>, layouts: seq<ViewId>)
    requires Wf(doc) && DataMarked(doc) && MarkerQuery(doc, top, found)
    requires |layouts| <= |ViewsOf(doc, found)| && Wrap(layouts) == ViewsOf(doc, found)[..|layouts|]
    ensures AncestorsFirst(doc, layouts)
  {
    MarkerQueryClosed(doc, top, found);
    MarkerQueryParentsPrecede(doc, top, found);
    DedupNoDup(Lookups(doc, found));
    PrefixAncestorsFirst(doc, ViewsOf(doc, found), layouts);
  }

  /** The handler with the intended ancestor walk. */
  method Resize(doc: Doc, found: seq<Node>) returns (layouts: seq<ViewId>, outcome: Outcome)
    requires Wf(doc)
    ensures outcome == Completed <==> forall k :: 0 <= k < |found| ==> ViewOf(doc, found[k]).Some?
    ensures outcome == Completed ==> NoDup(layouts)
    ensures outcome == Completed ==>
      forall v :: v in layouts <==> exists k :: 0 <= k < |found| && ViewOf(doc, found[k]) == Some(v)
    ensures forall top :: DataMarked(doc) && MarkerQuery(doc, top, found) ==>
      && AncestorsFirst(doc, layouts)
      && |layouts| <= |ViewsOf(doc, found)| && Wrap(layouts) == ViewsOf(doc, found)[..|layouts|]
      && (outcome == Completed ==> Wrap(layouts) == ViewsOf(doc, found))
      && (outcome == TypeError ==> |layouts| < |ViewsOf(doc, found)| && ViewsOf(doc, found)[|layouts|] == None)
  {
    var views := Views(doc, found);
    LookupsRegistered(doc, found);
    layouts, outcome := Drain(doc, views);
    if outcome == Completed {
      ExactlyOnce(views, layouts);
    }
    forall top | DataMarked(doc) && MarkerQuery(doc, top, found)
      ensures AncestorsFirst(doc, layouts)
      ensures |layouts| <= |ViewsOf(doc, found)| && Wrap(layouts) == ViewsOf(doc, found)[..|layouts|]
      ensures outcome == Completed ==> Wrap(layouts) == ViewsOf(doc, found)
      ensures outcome == TypeError ==> |layouts| < |ViewsOf(doc, found)| && ViewsOf(doc, found)[|layouts|] == None
    {
      MarkerQueryParentsPrecede(doc, top, found);
      MarkerQueryAncestorsFirst(doc, top, found, layouts);
    }
  }

  /** The handler as the source writes it. */
  method ResizeAsWritten(doc: Doc, found: seq<Node>) returns (layouts: seq<ViewId>, outcome: Outcome)
    requires Wf(doc)
    ensures Registered(doc, ViewsOf(doc, found))
    ensures outcome == TypeError ==>
      |layouts| < |ViewsOf(doc, found)| && ThrowsAt(doc, ViewsOf(doc, found), |layouts|)
    ensures forall k :: 0 <= k < |layouts| && k < |ViewsOf(doc, found)| ==> !ThrowsAt(doc, ViewsOf(doc, found), k)
    ensures outcome == Completed <==> forall k :: 0 <= k < |found| ==> ViewOf(doc, found[k]).Some?
    ensures outcome == Completed ==> Wrap(layouts) == ViewsOf(doc, found)
    ensures outcome == Completed ==> NoDup(layouts)
    ensures outcome == Completed ==>
      forall v :: v in layouts <==> exists k :: 0 <= k < |found| && ViewOf(doc, found[k]) == Some(v)
    ensures |layouts| <= |ViewsOf(doc, found)| && Wrap(layouts) == ViewsOf(doc, found)[..|layouts|]
    ensures forall top :: DataMarked(doc) && MarkerQuery(doc, top, found) ==> AncestorsFirst(doc, layouts)
  {
    var views := Views(doc, found);
    LookupsRegistered(doc, found);
    layouts, outcome := DrainAsWritten(doc, views);
    if outcome == Completed {
      assert multiset(Wrap(layouts)) == multiset(views);
      ExactlyOnce(views, layouts);
    }
    forall top | DataMarked(doc) && MarkerQuery(doc, top, found) ensures AncestorsFirst(doc, layouts) {
      MarkerQueryAncestorsFirst(doc, top, found, layouts);
    }
  }
}
