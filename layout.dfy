/** The resize handler of StickyView: it collects the views of every marked
    node with `$.fn.views`, then drains that working set, each time calling
    `doLayout` on one view and splicing it out. The model returns the
    sequence of `doLayout` calls the handler makes, and whether it ran to the
    end or stopped on a `TypeError`. */
module Layout {
  import opened Seqs
  import opened Registry

  /** How one pass of the handler ends: normally, or on a `TypeError` thrown
      by calling `parentView` on something that is not a view (`null` when a
      marked node holds no view). */
  datatype Outcome = Completed | TypeError

  /** Every view in the working set has a root node. */
  ghost predicate Registered(doc: Doc, ws: seq<Option<ViewId>>) {
    forall v :: Some(v) in ws ==> v in doc.roots
  }

  /** The layout calls viewed as working-set entries. */
  function Wrap(vs: seq<ViewId>): (r: seq<Option<ViewId>>)
    ensures |r| == |vs| && forall i :: 0 <= i < |vs| ==> r[i] == Some(vs[i])
    ensures None !in r
  {
    seq(|vs|, i requires 0 <= i < |vs| => Some(vs[i]))
  }

  lemma WrapSnoc(vs: seq<ViewId>, v: ViewId)
    ensures Wrap(vs + [v]) == Wrap(vs) + [Some(v)]
  {
  }

  /** `a` is reached from `v` by one or more `parentView` steps. */
  ghost predicate ViewAncestor(doc: Doc, a: ViewId, v: ViewId)
    requires Wf(doc) && v in doc.roots
    decreases doc.roots[v]
  {
    var p := ParentView(doc, v);
    p.Some? && (p.value == a || ViewAncestor(doc, a, p.value))
  }

  /** No view is laid out after one of its descendant views. */
  ghost predicate AncestorsFirst(doc: Doc, layouts: seq<ViewId>)
    requires Wf(doc)
  {
    forall i, j :: 0 <= i < j < |layouts| && layouts[i] in doc.roots ==> !ViewAncestor(doc, layouts[j], layouts[i])
  }

  /** The parent view of every view of the working set is in the working set too. */
  ghost predicate ClosedUnderParent(doc: Doc, ws: seq<Option<ViewId>>)
    requires Wf(doc)
  {
    forall i :: 0 <= i < |ws| && ws[i].Some? && ws[i].value in doc.roots ==>
      ParentView(doc, ws[i].value).None? || ParentView(doc, ws[i].value) in ws
  }

  /** A parent view stands in the working set before each of its child views. */
  ghost predicate ParentsPrecede(doc: Doc, ws: seq<Option<ViewId>>)
    requires Wf(doc)
  {
    forall i, j ::
      (0 <= i < |ws| && 0 <= j < |ws| && ws[j].Some? && ws[j].value in doc.roots
       && ParentView(doc, ws[j].value).Some? && ParentView(doc, ws[j].value) == ws[i]) ==> i < j
  }

  /** The drain loop with the ancestor walk the comment "Find unhandled root"
      describes: climb from `views[0]` while the parent view exists and is still
      in `views`, lay out the view reached, splice it out. */
  method Drain(doc: Doc, ws: seq<Option<ViewId>>) returns (layouts: seq<ViewId>, outcome: Outcome)
    requires Wf(doc) && Registered(doc, ws) && NoDup(ws)
    ensures outcome == Completed <==> None !in ws
    ensures multiset(Wrap(layouts)) <= multiset(ws)
    ensures outcome == Completed ==> multiset(Wrap(layouts)) == multiset(ws)
    ensures ClosedUnderParent(doc, ws) ==> AncestorsFirst(doc, layouts)
    ensures ClosedUnderParent(doc, ws) ==> forall i, a :: 0 <= i < |layouts| && layouts[i] in doc.roots && Some(a) in ws && a !in layouts ==>
      !ViewAncestor(doc, a, layouts[i])
    ensures ParentsPrecede(doc, ws) ==> |layouts| <= |ws| && Wrap(layouts) == ws[..|layouts|]
    ensures ParentsPrecede(doc, ws) && outcome == Completed ==> Wrap(layouts) == ws
    ensures ParentsPrecede(doc, ws) && outcome == TypeError ==> |layouts| < |ws| && ws[|layouts|] == None
  {
    ghost var closed := ClosedUnderParent(doc, ws);
    ghost var precede := ParentsPrecede(doc, ws);
    var views := ws;
    layouts := [];
    DrainStart(doc, ws);
    while |views| > 0
      invariant Split(ws, views, layouts) && Registered(doc, views)
      invariant closed ==> NoPendingAncestor(doc, views, layouts)
      invariant precede ==> TakenInOrder(ws, views, layouts)
      decreases |views|
    {
      if views[0].None? {
        SplitPending(ws, views, layouts, 0);
        SplitPendingViews(ws, views, layouts);
        outcome := TypeError;
        return;
      }
      var view := views[0].value;
      if precede {
        PrecedeLeavesNoPendingParent(doc, ws, |layouts|, views);
      }
      // Find unhandled root
      view := FindUnhandledRoot(doc, views, view);
      ghost var before, done := views, layouts;
      var k := IndexOf(views, Some(view));
      SplitStep(ws, before, done, view, k);
      if closed {
        DrainStepKeepsOrder(doc, ws, before, Splice(before, k), done, view);
      }
      if precede {
        PrecedeStep(ws, before, done, view);
      }
      // Notify
      layouts := layouts + [view];
      // Drop
      views := Splice(views, k);
    }
    DrainEnd(doc, ws, layouts);
    SplitPendingViews(ws, views, layouts);
    outcome := Completed;
  }

  lemma DrainStart(doc: Doc, ws: seq<Option<ViewId>>)
    requires Wf(doc) && NoDup(ws)
    ensures Split(ws, ws, []) && NoPendingAncestor(doc, ws, []) && TakenInOrder(ws, ws, [])
  {
    assert Wrap([]) == [];
  }

  lemma DrainEnd(doc: Doc, ws: seq<Option<ViewId>>, layouts: seq<ViewId>)
    requires Wf(doc) && Split(ws, [], layouts)
    ensures multiset(Wrap(layouts)) == multiset(ws) && None !in ws
    ensures NoPendingAncestor(doc, [], layouts) ==> AncestorsFirst(doc, layouts)
    ensures TakenInOrder(ws, [], layouts) ==> Wrap(layouts) == ws
  {
  }

  /** A pending entry belongs to the working set. */
  lemma SplitPending(ws: seq<Option<ViewId>>, views: seq<Option<ViewId>>, layouts: seq<ViewId>, i: nat)
    requires Split(ws, views, layouts) && i < |views|
    ensures views[i] in ws && multiset(Wrap(layouts)) <= multiset(ws)
  {
    assert views[i] in multiset(views);
    assert views[i] in multiset(ws);
  }

  /** A view of the working set that has not been laid out is pending. */
  lemma SplitPendingViews(ws: seq<Option<ViewId>>, views: seq<Option<ViewId>>, layouts: seq<ViewId>)
    requires Split(ws, views, layouts)
    ensures forall a :: Some(a) in ws && a !in layouts ==> Some(a) in views
  {
    forall a | Some(a) in ws && a !in layouts ensures Some(a) in views {
      assert Some(a) in multiset(ws);
      assert Some(a) !in Wrap(layouts);
    }
  }

  /** The pending views and the calls made so far split the working set. */
  ghost predicate Split(ws: seq<Option<ViewId>>, views: seq<Option<ViewId>>, layouts: seq<ViewId>) {
    && multiset(views) + multiset(Wrap(layouts)) == multiset(ws)
    && NoDup(views)
    && (None in ws ==> None in views)
  }

  /** No view laid out so far has a pending ancestor view, or a later-laid-out one. */
  ghost predicate NoPendingAncestor(doc: Doc, views: seq<Option<ViewId>>, layouts: seq<ViewId>)
    requires Wf(doc)
  {
    && (forall i, a :: 0 <= i < |layouts| && layouts[i] in doc.roots && Some(a) in views ==> !ViewAncestor(doc, a, layouts[i]))
    && AncestorsFirst(doc, layouts)
  }

  /** The calls made so far are the working set's first entries, in order. */
  ghost predicate TakenInOrder(ws: seq<Option<ViewId>>, views: seq<Option<ViewId>>, layouts: seq<ViewId>) {
    |layouts| <= |ws| && views == ws[|layouts|..] && Wrap(layouts) == ws[..|layouts|]
  }

  lemma SplitStep(ws: seq<Option<ViewId>>, views: seq<Option<ViewId>>, done: seq<ViewId>, view: ViewId, k: int)
    requires Split(ws, views, done) && k == IndexOf(views, Some(view)) && k != -1
    ensures Split(ws, Splice(views, k), done + [view])
  {
    WrapSnoc(done, view);
  }

  /** Find unhandled root: climb from `start` while the parent view exists and
      `_.indexOf(views, parentView) != -1`. The view reached is `start` or one of
      its ancestor views, is in `views`, and its own parent view is not. */
  method FindUnhandledRoot(doc: Doc, views: seq<Option<ViewId>>, start: ViewId) returns (view: ViewId)
    requires Wf(doc) && start in doc.roots && Some(start) in views
    ensures view in doc.roots && Some(view) in views
    ensures view == start || ViewAncestor(doc, view, start)
    ensures ParentView(doc, view).None? || ParentView(doc, view) !in views
    ensures (ParentView(doc, start).None? || ParentView(doc, start) !in views) ==> view == start
    ensures forall a :: a in doc.roots && (a == start || ViewAncestor(doc, a, start)) && ViewAncestor(doc, view, a) ==>
      Some(a) in views
  {
    view := start;
    var parentView := ParentView(doc, view);
    ClimbStart(doc, start);
    while parentView.Some? && IndexOf(views, parentView) != -1
      invariant view in doc.roots && Some(view) in views
      invariant parentView == ParentView(doc, view)
      invariant view == start || ViewAncestor(doc, view, start)
      invariant (ParentView(doc, start).None? || ParentView(doc, start) !in views) ==> view == start
      invariant forall a :: a in doc.roots && (a == start || ViewAncestor(doc, a, start)) && ViewAncestor(doc, view, a) ==>
        Some(a) in views
      decreases doc.roots[view]
    {
      ViewAncestorStep(doc, start, view);
      ClimbStep(doc, start, view, views);
      view := parentView.value;
      parentView := ParentView(doc, view);
    }
  }

  /** An ancestor view's root has a lower number. */
  lemma {:induction false} ViewAncestorBelow(doc: Doc, a: ViewId, v: ViewId)
    requires Wf(doc) && v in doc.roots && ViewAncestor(doc, a, v)
    ensures a in doc.roots && doc.roots[a] < doc.roots[v]
    decreases doc.roots[v]
  {
    var p := ParentView(doc, v).value;
    if p != a {
      ViewAncestorBelow(doc, a, p);
    }
  }

  /** The views at or above `v` form a chain: of two of them, one is above the other. */
  lemma {:induction false} ViewAncestorsChained(doc: Doc, v: ViewId, x: ViewId, y: ViewId)
    requires Wf(doc) && v in doc.roots && x in doc.roots && y in doc.roots
    requires x == v || ViewAncestor(doc, x, v)
    requires y == v || ViewAncestor(doc, y, v)
    ensures x == y || ViewAncestor(doc, x, y) || ViewAncestor(doc, y, x)
    decreases doc.roots[v]
  {
    if x != v && y != v {
      var p := ParentView(doc, v).value;
      ViewAncestorsChained(doc, p, x, y);
    }
  }

  /** At the start of the walk no view lies between `start` and the current view. */
  lemma ClimbStart(doc: Doc, start: ViewId)
    requires Wf(doc) && start in doc.roots
    ensures forall a :: a in doc.roots && (a == start || ViewAncestor(doc, a, start)) ==> !ViewAncestor(doc, start, a)
  {
    forall a | a in doc.roots && (a == start || ViewAncestor(doc, a, start)) && ViewAncestor(doc, start, a)
      ensures false
    {
      ViewAncestorBelow(doc, start, a);
      if a != start {
        ViewAncestorBelow(doc, a, start);
      }
    }
  }

  /** One climb: the views passed, now including the current one, are pending. */
  lemma ClimbStep(doc: Doc, start: ViewId, view: ViewId, views: seq<Option<ViewId>>)
    requires Wf(doc) && start in doc.roots && view in doc.roots && Some(view) in views
    requires view == start || ViewAncestor(doc, view, start)
    requires ParentView(doc, view).Some?
    requires forall a :: a in doc.roots && (a == start || ViewAncestor(doc, a, start)) && ViewAncestor(doc, view, a) ==>
      Some(a) in views
    ensures var p := ParentView(doc, view).value;
      forall a :: a in doc.roots && (a == start || ViewAncestor(doc, a, start)) && ViewAncestor(doc, p, a) ==>
        Some(a) in views
  {
    var p := ParentView(doc, view).value;
    forall a | a in doc.roots && (a == start || ViewAncestor(doc, a, start)) && ViewAncestor(doc, p, a)
      ensures Some(a) in views
    {
      ViewAncestorsChained(doc, start, a, view);
      if a != view && !ViewAncestor(doc, view, a) {
        // `a` is above `view`, so at or above `p`, which is above `a`
        assert ViewAncestor(doc, a, view);
        ViewAncestorBelow(doc, p, a);
        if a != p {
          ViewAncestorBelow(doc, a, p);
        }
      }
    }
  }

  /** The parent view of an ancestor view of `v` is an ancestor view of `v`. */
  lemma {:induction false} ViewAncestorStep(doc: Doc, v: ViewId, a: ViewId)
    requires Wf(doc) && v in doc.roots && a in doc.roots
    requires a == v || ViewAncestor(doc, a, v)
    requires ParentView(doc, a).Some?
    ensures ViewAncestor(doc, ParentView(doc, a).value, v)
    decreases doc.roots[v]
  {
    if a != v {
      var p := ParentView(doc, v).value;
      if p != a {
        ViewAncestorStep(doc, p, a);
      }
    }
  }

  /** When parents precede children, the first pending view has no pending parent view. */
  lemma PrecedeLeavesNoPendingParent(doc: Doc, ws: seq<Option<ViewId>>, m: nat, views: seq<Option<ViewId>>)
    requires Wf(doc) && ParentsPrecede(doc, ws) && NoDup(ws)
    requires m < |ws| && views == ws[m..] && ws[m].Some? && ws[m].value in doc.roots
    ensures ParentView(doc, ws[m].value).None? || ParentView(doc, ws[m].value) !in views
  {
  }

  /** One step of the drain when the loop took `views[0]`: the remaining working
      set and the calls made so far still split the original working set. */
  lemma PrecedeStep(ws: seq<Option<ViewId>>, before: seq<Option<ViewId>>, done: seq<ViewId>, view: ViewId)
    requires TakenInOrder(ws, before, done) && |before| > 0 && before[0] == Some(view)
    ensures TakenInOrder(ws, Splice(before, IndexOf(before, Some(view))), done + [view])
  {
    WrapSnoc(done, view);
    assert ws[..|done| + 1] == ws[..|done|] + [ws[|done|]];
  }

  /** One step of the drain under `ClosedUnderParent`: the view laid out has no
      ancestor view left in the working set. */
  lemma DrainStepKeepsOrder(doc: Doc, ws: seq<Option<ViewId>>, before: seq<Option<ViewId>>,
                            after: seq<Option<ViewId>>, done: seq<ViewId>, view: ViewId)
    requires Wf(doc) && Registered(doc, ws) && ClosedUnderParent(doc, ws) && view in doc.roots
    requires Split(ws, before, done) && NoPendingAncestor(doc, before, done)
    requires Some(view) in before
    requires ParentView(doc, view).None? || ParentView(doc, view) !in before
    requires forall x :: x in after ==> x in before
    requires Some(view) !in after
    ensures NoPendingAncestor(doc, after, done + [view])
  {
    var p := ParentView(doc, view);
    assert Some(view) in multiset(ws);
    var w := IndexOf(ws, Some(view));
    forall a | Some(a) in after ensures !ViewAncestor(doc, a, view) {
      if p.Some? && p.value != a {
        assert ws[w] == Some(view);
        assert p in ws;
        assert multiset(ws)[p] > 0 && multiset(before)[p] == 0;
        assert p in multiset(Wrap(done));
        var i :| 0 <= i < |done| && Wrap(done)[i] == p;
        assert !ViewAncestor(doc, a, done[i]);
      }
    }
  }

  /** A working set without repetitions that the calls exhaust lays out every
      view of it exactly once. */
  lemma ExactlyOnce(ws: seq<Option<ViewId>>, layouts: seq<ViewId>)
    requires NoDup(ws) && multiset(Wrap(layouts)) == multiset(ws)
    ensures NoDup(layouts)
    ensures forall v :: v in layouts <==> Some(v) in ws
  {
    var w := Wrap(layouts);
    forall i, j | 0 <= i < j < |layouts| ensures layouts[i] != layouts[j] {
      if layouts[i] == layouts[j] {
        RepeatedCount(w, i, j);
        SingleCount(ws, IndexOf(ws, w[i]));
      }
    }
    forall v ensures v in layouts <==> Some(v) in ws {
      if v in layouts {
        var i :| 0 <= i < |layouts| && layouts[i] == v;
        assert w[i] in multiset(ws);
      }
      if Some(v) in ws {
        assert Some(v) in multiset(w);
      }
    }
  }

  /** In a working set closed under `parentView` where parents precede their
      children, every ancestor view of an entry stands before it. */
  lemma {:induction false} AncestorIndexEarlier(doc: Doc, ws: seq<Option<ViewId>>, i: nat, a: ViewId)
    requires Wf(doc) && ClosedUnderParent(doc, ws) && ParentsPrecede(doc, ws)
    requires i < |ws| && ws[i].Some? && ws[i].value in doc.roots
    requires ViewAncestor(doc, a, ws[i].value)
    ensures Some(a) in ws && IndexOf(ws, Some(a)) < i
    decreases doc.roots[ws[i].value]
  {
    var p := ParentView(doc, ws[i].value);
    var ip := IndexOf(ws, p);
    assert ip < i;
    if p.value != a {
      AncestorIndexEarlier(doc, ws, ip, a);
    }
  }

  /** Laying out a prefix of such a working set in its own order puts ancestors first. */
  lemma PrefixAncestorsFirst(doc: Doc, ws: seq<Option<ViewId>>, layouts: seq<ViewId>)
    requires Wf(doc) && ClosedUnderParent(doc, ws) && ParentsPrecede(doc, ws) && NoDup(ws)
    requires |layouts| <= |ws| && Wrap(layouts) == ws[..|layouts|]
    ensures AncestorsFirst(doc, layouts)
  {
    forall i, j | 0 <= i < j < |layouts| && layouts[i] in doc.roots
      ensures !ViewAncestor(doc, layouts[j], layouts[i])
    {
      assert ws[i] == Some(layouts[i]) && ws[j] == Some(layouts[j]);
      if ViewAncestor(doc, layouts[j], layouts[i]) {
        AncestorIndexEarlier(doc, ws, i, layouts[j]);
      }
    }
  }

  /** The values the as-written loop handles: `undefined`, `null`, a boolean, or a view. */
  datatype JsValue = Undefined | Null | Boolean(b: bool) | ViewObject(id: ViewId)

  function ToJs(o: Option<ViewId>): JsValue {
    match o
    case None => Null
    case Some(v) => ViewObject(v)
  }

  predicate Truthy(x: JsValue) {
    x.ViewObject? || x == Boolean(true)
  }

  /** `_.indexOf(views, x) != -1` with strict equality: a view matches itself,
      `null` matches `null`, no other value occurs in `views`. */
  predicate InViews(views: seq<Option<ViewId>>, x: JsValue) {
    match x
    case ViewObject(v) => IndexOf(views, Some(v)) != -1
    case Null => IndexOf(views, None) != -1
    case _ => false
  }

  /** The drain loop as StickyView.js writes it. The condition
      `parentView = view.parentView() && _.indexOf(views, parentView) != -1`
      assigns the value of the whole `&&`: `null` when there is no parent view,
      otherwise whether the variable's OLD value is in `views`. That old value
      (kept across iterations, since `var parentView` is hoisted) is
      `undefined`, `null` or `false`, so the walk never climbs; it can only
      yield `true` when `null` is in `views`, and calling `true.parentView()`
      then throws. */
  method DrainAsWritten(doc: Doc, ws: seq<Option<ViewId>>) returns (layouts: seq<ViewId>, outcome: Outcome)
    requires Wf(doc) && Registered(doc, ws)
    ensures outcome == Completed <==> None !in ws
    ensures outcome == Completed ==> Wrap(layouts) == ws
    ensures outcome == TypeError ==> |layouts| < |ws| && Wrap(layouts) == ws[..|layouts|] && ThrowsAt(doc, ws, |layouts|)
    ensures forall k :: 0 <= k < |layouts| ==> !ThrowsAt(doc, ws, k)
  {
    var views := ws;
    layouts := [];
    var parentView: JsValue := Undefined;
    while |views| > 0
      invariant Wrap(layouts) + views == ws
      invariant Registered(doc, views)
      invariant parentView == Undefined || parentView == Null || parentView == Boolean(false)
      invariant parentView == Null <==> |layouts| > 0 && ParentView(doc, layouts[|layouts| - 1]).None?
      invariant forall k :: 0 <= k < |layouts| ==> !ThrowsAt(doc, ws, k)
      decreases |views|
    {
      ghost var prev := parentView;
      var view, threw;
      view, parentView, threw := ClimbAsWritten(doc, views, parentView);
      if threw {
        AsWrittenThrows(doc, ws, layouts, views);
        outcome := TypeError;
        return;
      }
      AsWrittenProceeds(doc, ws, layouts, views, prev);
      AsWrittenStep(doc, ws, layouts, views);
      layouts := layouts + [view.id];
      views := Splice(views, IndexOf(views, Some(view.id)));
    }
    outcome := Completed;
  }

  /** The inner loop as written, started from `views[0]` with the hoisted
      variable holding `parentView0`. It throws on `null`, and on a view with a
      parent view when the variable holds `null` and `null` is pending (the
      condition yields `true`, and `true.parentView()` is not a function).
      Otherwise it leaves at once with `views[0]`, the variable holding `null`
      if that view has no parent view and `false` if it has one. */
  method ClimbAsWritten(doc: Doc, views: seq<Option<ViewId>>, parentView0: JsValue)
    returns (view: JsValue, parentView: JsValue, threw: bool)
    requires Wf(doc) && Registered(doc, views) && |views| > 0
    requires parentView0 == Undefined || parentView0 == Null || parentView0 == Boolean(false)
    ensures threw <==> views[0].None? || (ParentView(doc, views[0].value).Some? && parentView0 == Null && None in views)
    ensures !threw ==> views[0].Some? && view == ToJs(views[0])
    ensures !threw ==> parentView == if ParentView(doc, views[0].value).None? then Null else Boolean(false)
  {
    parentView := parentView0;
    view := ToJs(views[0]);
    while true
      invariant (view == ToJs(views[0]) && parentView == parentView0)
        || (view == Boolean(true) && parentView == Boolean(true) && parentView0 == Null && None in views
            && views[0].Some? && ParentView(doc, views[0].value).Some?)
      decreases if view.ViewObject? then 1 else 0
    {
      if !view.ViewObject? {
        // `view.parentView` is not a function
        return view, parentView, true;
      }
      var found := ParentView(doc, view.id);
      parentView := if found.None? then Null else Boolean(InViews(views, parentView));
      if !Truthy(parentView) {
        break;
      }
      view := parentView;
    }
    threw := false;
  }

  /** Entry `i` of the working set makes the as-written loop throw: it is `null`,
      or it is a view with a parent view, the entry before it has none (so the
      hoisted variable holds `null`), and `null` is still pending. */
  ghost predicate ThrowsAt(doc: Doc, ws: seq<Option<ViewId>>, i: nat)
    requires Wf(doc) && Registered(doc, ws) && i < |ws|
  {
    || ws[i].None?
    || (&& 0 < i && ws[i - 1].Some?
        && ParentView(doc, ws[i].value).Some?
        && ParentView(doc, ws[i - 1].value).None?
        && None in ws[i..])
  }

  lemma AsWrittenThrows(doc: Doc, ws: seq<Option<ViewId>>, layouts: seq<ViewId>, views: seq<Option<ViewId>>)
    requires Wf(doc) && Registered(doc, ws) && Wrap(layouts) + views == ws && |views| > 0
    requires || views[0].None?
             || (&& views[0].Some? && ParentView(doc, views[0].value).Some? && None in views
                 && |layouts| > 0 && ParentView(doc, layouts[|layouts| - 1]).None?)
    ensures |layouts| < |ws| && Wrap(layouts) == ws[..|layouts|] && ThrowsAt(doc, ws, |layouts|)
  {
    assert ws[|layouts|..] == views;
    assert ws[..|layouts|] == Wrap(layouts);
    if |layouts| > 0 {
      assert ws[|layouts| - 1] == Some(layouts[|layouts| - 1]);
    }
  }

  lemma AsWrittenProceeds(doc: Doc, ws: seq<Option<ViewId>>, layouts: seq<ViewId>, views: seq<Option<ViewId>>, prev: JsValue)
    requires Wf(doc) && Registered(doc, ws) && Wrap(layouts) + views == ws && |views| > 0
    requires views[0].Some?
    requires prev == Null <==> |layouts| > 0 && ParentView(doc, layouts[|layouts| - 1]).None?
    requires prev == Null && None in views ==> ParentView(doc, views[0].value).None?
    ensures !ThrowsAt(doc, ws, |layouts|)
  {
    assert ws[|layouts|..] == views;
    if |layouts| > 0 {
      assert ws[|layouts| - 1] == Some(layouts[|layouts| - 1]);
    }
  }

  /** Laying out the first pending view, which the loop does not throw at, keeps
      the loop's picture of what it has done. */
  lemma AsWrittenStep(doc: Doc, ws: seq<Option<ViewId>>, layouts: seq<ViewId>, views: seq<Option<ViewId>>)
    requires Wf(doc) && Registered(doc, ws) && Wrap(layouts) + views == ws && |views| > 0 && views[0].Some?
    requires forall k :: 0 <= k < |layouts| ==> !ThrowsAt(doc, ws, k)
    requires !ThrowsAt(doc, ws, |layouts|)
    ensures Splice(views, IndexOf(views, views[0])) == views[1..]
    ensures Wrap(layouts + [views[0].value]) + views[1..] == ws
    ensures forall k :: 0 <= k < |layouts| + 1 ==> !ThrowsAt(doc, ws, k)
  {
    SnocLayout(layouts, views);
    assert IndexOf(views, views[0]) == 0;
    assert views[..0] + views[0 + 1..] == views[1..];
  }

  lemma SnocLayout(layouts: seq<ViewId>, views: seq<Option<ViewId>>)
    requires |views| > 0 && views[0].Some?
    ensures Wrap(layouts + [views[0].value]) + views[1..] == Wrap(layouts) + views
  {
    WrapSnoc(layouts, views[0].value);
    assert views == [views[0]] + views[1..];
  }
}
