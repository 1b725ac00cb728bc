/** The node registry of StickyView: the abstract document tree, the view
    stored on a node (`$el.data('stickyView', view)`), the nodes that carry
    the marker class `stickyView`, and the three queries built on them:
    `$.fn.view`, `$.fn.views` and `StickyView#parentView`. */
module Registry {
  import opened Seqs

  /** A node is named by a number; numbers follow the tree, a parent's being
      below its children's (document order is one such numbering). */
  type Node = nat

  /** A view is named by its client id (`_.uniqueId('view')`). */
  type ViewId = nat

  /** The part of the document the view layer reads and writes.
      - `parent`: the parent of every node that has one (absent: a top-level or detached node);
      - `data`:   the view stored on a node under the key `stickyView`;
      - `marked`: the nodes that carry the marker class `stickyView`;
      - `roots`:  the root node (`el`) of every view. */
  datatype Doc = Doc(
    parent: map<Node, Node>,
    data: map<Node, ViewId>,
    marked: set<Node>,
    roots: map<ViewId, Node>)

  /** A parent's number is below its children's. */
  predicate Ordered(doc: Doc) {
    forall n :: n in doc.parent ==> doc.parent[n] < n
  }

  /** The view stored on a node has that node as its root. */
  predicate Consistent(doc: Doc) {
    forall n :: n in doc.data ==> doc.data[n] in doc.roots && doc.roots[doc.data[n]] == n
  }

  predicate Wf(doc: Doc) {
    Ordered(doc) && Consistent(doc)
  }

  /** Every node that holds a view carries the marker class (both are written together). */
  predicate DataMarked(doc: Doc) {
    forall n :: n in doc.data ==> n in doc.marked
  }

  /** `a` is `n` or one of its ancestors. */
  predicate AncestorOrSelf(doc: Doc, a: Node, n: Node)
    requires Ordered(doc)
    decreases n
  {
    a == n || (n in doc.parent && AncestorOrSelf(doc, a, doc.parent[n]))
  }

  /** `a` is a strict ancestor of `n`. */
  predicate IsAncestor(doc: Doc, a: Node, n: Node)
    requires Ordered(doc)
  {
    n in doc.parent && AncestorOrSelf(doc, a, doc.parent[n])
  }

  lemma {:induction false} AncestorOrSelfBelow(doc: Doc, a: Node, n: Node)
    requires Ordered(doc) && AncestorOrSelf(doc, a, n)
    ensures a <= n
  {
    if a != n {
      AncestorOrSelfBelow(doc, a, doc.parent[n]);
    }
  }

  /** The ancestors of a node form a chain: of two of them, one is above the other. */
  lemma {:induction false} AncestorsAreChained(doc: Doc, a: Node, b: Node, n: Node)
    requires Ordered(doc) && AncestorOrSelf(doc, a, n) && AncestorOrSelf(doc, b, n)
    ensures AncestorOrSelf(doc, a, b) || AncestorOrSelf(doc, b, a)
  {
    if a != n && b != n {
      AncestorsAreChained(doc, a, b, doc.parent[n]);
    }
  }

  lemma {:induction false} AncestorOrSelfTrans(doc: Doc, a: Node, b: Node, n: Node)
    requires Ordered(doc) && AncestorOrSelf(doc, a, b) && AncestorOrSelf(doc, b, n)
    ensures AncestorOrSelf(doc, a, n)
    decreases n
  {
    if b != n {
      AncestorOrSelfTrans(doc, a, b, doc.parent[n]);
    }
  }

  /** A strict ancestor of a node is a strict ancestor of everything below that node. */
  lemma IsAncestorTrans(doc: Doc, a: Node, b: Node, n: Node)
    requires Ordered(doc) && IsAncestor(doc, a, b) && AncestorOrSelf(doc, b, n)
    ensures IsAncestor(doc, a, n)
  {
    if b != n {
      AncestorOrSelfTrans(doc, doc.parent[b], b, doc.parent[n]);
      AncestorOrSelfTrans(doc, a, doc.parent[b], doc.parent[n]);
    }
  }

  /** `c` is the nearest node at or above `n` that carries the marker class. */
  ghost predicate NearestMarked(doc: Doc, n: Node, c: Node)
    requires Ordered(doc)
  {
    && c in doc.marked
    && AncestorOrSelf(doc, c, n)
    && forall m :: AncestorOrSelf(doc, m, n) && IsAncestor(doc, c, m) ==> m !in doc.marked
  }

  /** `.closest('.stickyView')`: the first marked node met walking up from `n` itself. */
  function Closest(doc: Doc, n: Node): (r: Option<Node>)
    requires Ordered(doc)
    ensures r.Some? ==> r.value in doc.marked && AncestorOrSelf(doc, r.value, n) && r.value <= n
    decreases n
  {
    if n in doc.marked then Some(n)
    else if n in doc.parent then Closest(doc, doc.parent[n])
    else None
  }

  lemma {:induction false} ClosestIsNearest(doc: Doc, n: Node)
    requires Ordered(doc)
    ensures Closest(doc, n).Some? ==> NearestMarked(doc, n, Closest(doc, n).value)
    ensures Closest(doc, n).None? ==> forall m :: AncestorOrSelf(doc, m, n) ==> m !in doc.marked
    decreases n
  {
    if n in doc.marked {
      forall m | AncestorOrSelf(doc, m, n) && IsAncestor(doc, n, m) ensures false {
        AncestorOrSelfBelow(doc, m, n);
        AncestorOrSelfBelow(doc, n, doc.parent[m]);
      }
    } else if n in doc.parent {
      ClosestIsNearest(doc, doc.parent[n]);
    }
  }

  /** Two nearest marked nodes of the same node are the same node. */
  lemma NearestMarkedUnique(doc: Doc, n: Node, c: Node, d: Node)
    requires Ordered(doc) && NearestMarked(doc, n, c) && NearestMarked(doc, n, d)
    ensures c == d
  {
    AncestorsAreChained(doc, c, d, n);
  }

  /** `$.fn.view`: the view stored on the node itself, else the view stored on
      the nearest marked node at or above it, else `null` (`None`). */
  function ViewOf(doc: Doc, n: Node): (r: Option<ViewId>)
    requires Ordered(doc)
    ensures Consistent(doc) && r.Some? ==>
      && r.value in doc.roots
      && doc.roots[r.value] in doc.data
      && doc.data[doc.roots[r.value]] == r.value
      && AncestorOrSelf(doc, doc.roots[r.value], n)
      && doc.roots[r.value] <= n
  {
    if n in doc.data then Some(doc.data[n])
    else match Closest(doc, n)
      case Some(c) => if c in doc.data then Some(doc.data[c]) else None
      case None => None
  }

  /** A node that holds a view answers with that view. */
  lemma ViewOfOwn(doc: Doc, n: Node)
    requires Ordered(doc) && n in doc.data
    ensures ViewOf(doc, n) == Some(doc.data[n])
  {
  }

  /** A node that holds no view answers with the view of its nearest marked node,
      or `null` when that node holds none (the walk does not go further up). */
  lemma ViewOfNearest(doc: Doc, n: Node, c: Node)
    requires Ordered(doc) && n !in doc.data && NearestMarked(doc, n, c)
    ensures ViewOf(doc, n) == if c in doc.data then Some(doc.data[c]) else None
  {
    ClosestIsNearest(doc, n);
    if Closest(doc, n).Some? {
      NearestMarkedUnique(doc, n, c, Closest(doc, n).value);
    }
  }

  /** A node with no view and no marked node at or above it answers `null`. */
  lemma ViewOfUnmarked(doc: Doc, n: Node)
    requires Ordered(doc) && n !in doc.data
    requires forall m :: AncestorOrSelf(doc, m, n) ==> m !in doc.marked
    ensures ViewOf(doc, n) == None
  {
  }

  /** A node carrying the marker class answers with the view it holds, if any. */
  lemma ViewOfMarked(doc: Doc, n: Node)
    requires Ordered(doc) && n in doc.marked
    ensures ViewOf(doc, n) == if n in doc.data then Some(doc.data[n]) else None
  {
  }

  /** `parentView`: `$.fn.view` started from the parent of the view's root;
      `null` for a view whose root has no parent (top-level or detached). */
  function ParentView(doc: Doc, v: ViewId): (r: Option<ViewId>)
    requires Ordered(doc) && v in doc.roots
    ensures doc.roots[v] !in doc.parent ==> r.None?
    ensures Consistent(doc) && r.Some? ==>
      r.value in doc.roots && IsAncestor(doc, doc.roots[r.value], doc.roots[v]) && doc.roots[r.value] < doc.roots[v]
  {
    var el := doc.roots[v];
    if el in doc.parent then ViewOf(doc, doc.parent[el]) else None
  }

  /** The parent view of a view is the one stored on the nearest marked node
      strictly above its root (when the registry only stores views on marked
      nodes), or `null` when that node stores none. */
  lemma ParentViewNearest(doc: Doc, v: ViewId, c: Node)
    requires Wf(doc) && DataMarked(doc) && v in doc.roots && doc.roots[v] in doc.parent
    requires NearestMarked(doc, doc.parent[doc.roots[v]], c)
    ensures ParentView(doc, v) == if c in doc.data then Some(doc.data[c]) else None
  {
    var p := doc.parent[doc.roots[v]];
    if p in doc.data {
      ClosestIsNearest(doc, p);
      NearestMarkedUnique(doc, p, c, p);
    } else {
      ViewOfNearest(doc, p, c);
    }
  }

  /** The view found for each node of a jQuery set, in order. */
  function Lookups(doc: Doc, nodes: seq<Node>): (r: seq<Option<ViewId>>)
    requires Ordered(doc)
    ensures |r| == |nodes|
    ensures forall k :: 0 <= k < |nodes| ==> r[k] == ViewOf(doc, nodes[k])
  {
    if |nodes| == 0 then [] else Lookups(doc, nodes[..|nodes| - 1]) + [ViewOf(doc, nodes[|nodes| - 1])]
  }

  /** The result `$.fn.views` promises: the views of the nodes, each once, in first-seen order. */
  function ViewsOf(doc: Doc, nodes: seq<Node>): seq<Option<ViewId>>
    requires Ordered(doc)
  {
    Dedup(Lookups(doc, nodes))
  }

  /** `$.fn.views`: looks each node up with `$.fn.view` and pushes the answer
      unless `_.indexOf` finds it already in the result. */
  method Views(doc: Doc, nodes: seq<Node>) returns (result: seq<Option<ViewId>>)
    requires Ordered(doc)
    ensures result == ViewsOf(doc, nodes)
    ensures NoDup(result)
    ensures forall x :: x in result <==> exists k :: 0 <= k < |nodes| && ViewOf(doc, nodes[k]) == x
    ensures forall i, j :: 0 <= i < j < |result| ==>
      IndexOf(Lookups(doc, nodes), result[i]) < IndexOf(Lookups(doc, nodes), result[j])
  {
    result := [];
    var i := 0;
    while i < |nodes|
      invariant 0 <= i <= |nodes|
      invariant result == Dedup(Lookups(doc, nodes[..i]))
    {
      var view := ViewOf(doc, nodes[i]);
      assert nodes[..i + 1] == nodes[..i] + [nodes[i]];
      assert Lookups(doc, nodes[..i + 1]) == Lookups(doc, nodes[..i]) + [view];
      DedupSnoc(Lookups(doc, nodes[..i]), view);
      if IndexOf(result, view) == -1 {
        result := result + [view];
      }
      i := i + 1;
    }
    assert nodes[..i] == nodes;
    var found := Lookups(doc, nodes);
    DedupNoDup(found);
    DedupMembers(found);
    DedupFirstSeenOrder(found);
    forall x ensures x in result <==> exists k :: 0 <= k < |nodes| && ViewOf(doc, nodes[k]) == x {
      if x in found {
        var k :| 0 <= k < |found| && found[k] == x;
        assert ViewOf(doc, nodes[k]) == x;
      }
    }
  }
}
