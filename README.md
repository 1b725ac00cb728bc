# StickyView in Dafny

A model of the core of `StickyView.js`, a Backbone view class that does three things:

- **Registry and lookups.** A view is stored on its root node, and that node gets the marker class `stickyView`.
  - `$.fn.view` finds the view of a node.
  - `$.fn.views` finds the views of a set of nodes, without repeats.
  - `parentView` finds the view that contains a view.
- **Construction.** The constructor and `_render`:
  - check the template;
  - obtain the root node, register the view and record its placement;
  - wire the model;
  - run the `onRender`, `createChildren` and `doLayout` hooks.
- **Resize handler.** It collects every view and drains that working set. Each step lays out one view (`doLayout`) and splices it out.

The model is split into these modules:

- `Seqs` (`seqs.dfy`): the sequence operations the code relies on. These are Underscore's `_.indexOf`, the first-seen de-duplication that the loop of `$.fn.views` performs, and `Array.prototype.splice`.
- `Registry` (`registry.dfy`): the document and the lookups.
  - The document is abstract. It has node numbers with a parent map, the node→view data map, the set of marked nodes, and each view's root.
  - Numbers follow the tree: a parent's number is below its children's. The upward walks terminate because of this.
- `Layout` (`layout.dfy`): the drain loop, in two versions.
  - `Drain` is the loop with the ancestor walk that the comment "Find unhandled root" describes.
  - `DrainAsWritten` is the loop exactly as line 234 parses.
- `Handler` (`handler.dfy`): the resize handler with each loop. It also holds the lemmas about the marker query.
- `Scenarios` (`scenarios.dfy`): small documents on which the two loops are compared.
- `Lifecycle` (`lifecycle.dfy`): construction.
  - A `View` class holds the fields the constructor and `_render` assign.
  - A `Page` class holds the registry, the next new node, the next client id and the recorded effects.

A working set holds `Option<ViewId>`. `$.fn.views` can push `null`, which happens when a marked node holds no view. Calling `parentView` on `null` then throws a `TypeError`, and both loops end there.

## Model

| member | source | states |
|---|---|---|
| Seqs.IndexOf | StickyView.js:213 | `_.indexOf`: -1 exactly when the value is absent, otherwise the first position holding it |
| Seqs.DedupFirstSeenOrder | StickyView.js:209-216 | the de-duplicated list keeps the order in which the input first shows each value |
| Seqs.DedupMembers | StickyView.js:209-216 | the de-duplicated list holds exactly the values of the input |
| Seqs.DedupNoDup | StickyView.js:209-216 | the de-duplicated list has no repeats |
| Seqs.Splice | StickyView.js:242 | `splice(k, 1)` removes exactly the element at `k`: the elements before `k` keep their places, those after it move down by one, the multiset loses that element, and a list without repeats no longer holds it |
| Registry.Closest | StickyView.js:199 | `.closest` answers a marked node at or above the node itself |
| Registry.ClosestIsNearest | StickyView.js:199 | that node is the nearest marked one; with no answer, no node at or above is marked |
| Registry.ViewOf | StickyView.js:196-201 | any view found is registered, stored on its root, and that root is at or above the node |
| Registry.ViewOfOwn | StickyView.js:198 | a node that stores a view answers with it |
| Registry.ViewOfNearest | StickyView.js:199-200 | otherwise the answer is the view stored on the nearest marked node, or `null` if that node stores none (the walk does not continue upward) |
| Registry.ViewOfUnmarked | StickyView.js:199-200 | with no view and no marked node at or above, the answer is `null` |
| Registry.ViewOfMarked | StickyView.js:198-200 | a marked node answers with the view it stores, if any |
| Registry.ParentView | StickyView.js:168-171 | a view whose root has no parent has parent view `null`; any parent view found is rooted strictly above the view's root |
| Registry.ParentViewNearest | StickyView.js:168-171 | the parent view is the one stored on the nearest marked node strictly above the root, or `null` |
| Registry.Lookups | StickyView.js:210-212 | one lookup per node, in order, each being `$.fn.view` of that node |
| Registry.Views | StickyView.js:207-217 | the loop returns the de-duplicated lookups: no repeats; a value is in the result iff it is the view of some input node; first-seen order |
| Registry.AncestorsAreChained | StickyView.js:199 | two nodes above the same node are one above the other |
| Layout.Drain | StickyView.js:228-243 | intended walk: throws iff `null` is in the working set; lays out every view exactly once when it completes; under closure by parent view, whether it completes or throws, no view is laid out after a descendant view and no view laid out has an ancestor view still pending; when parents precede children, it lays out in working-set order, up to the first `null` |
| Layout.FindUnhandledRoot | StickyView.js:233-236 | the walk reaches the start view or one of its ancestor views, still in the working set, whose own parent view is not in the working set; every view it climbed through is in the working set, so it stops at the first view on the way up whose parent view is not pending |
| Layout.ViewAncestorStep | StickyView.js:234-235 | one more `parentView` step from an ancestor view lands on an ancestor view |
| Layout.ClimbAsWritten | StickyView.js:233-236 | the inner loop as written never climbs: it throws exactly on a `null` entry, or on a view with a parent view while the hoisted variable holds `null` and `null` is pending; otherwise it keeps the first pending view, leaving the variable `null` or `false` |
| Layout.DrainAsWritten | StickyView.js:228-243 | as written: throws iff `null` is in the working set; always lays out in working-set order; stops exactly at the first entry where `ThrowsAt` holds |
| Layout.ExactlyOnce | StickyView.js:239-242 | a working set without repeats, exhausted by the calls, has each of its views laid out exactly once |
| Layout.AncestorIndexEarlier | StickyView.js:233-236 | in a working set closed by parent view whose parents precede children, an ancestor view stands earlier |
| Layout.PrefixAncestorsFirst | StickyView.js:228-243 | laying out a prefix of such a working set in its own order puts ancestors first |
| Handler.LookupsRegistered | StickyView.js:226 | every view the handler collects has a root |
| Handler.RootFound | StickyView.js:226 | the marker query finds a view's root no later than any node of the document that resolves to it |
| Handler.ParentSeenFirst | StickyView.js:226 | lookups of document-order marker nodes meet a parent view before its child view |
| Handler.MarkerQueryClosed | StickyView.js:226 | the collected views contain the parent view of each of them |
| Handler.MarkerQueryParentsPrecede | StickyView.js:226 | the collected views list each parent view before its children |
| Handler.ParentBeforeChild | StickyView.js:226 | the pointwise form of the previous row |
| Handler.MarkerQueryNull | StickyView.js:226 | `null` is collected iff some marked node inside the document stores no view |
| Handler.MarkerQueryAncestorsFirst | StickyView.js:228-243 | laying out a prefix of the collected views in order puts ancestors first |
| Handler.Resize | StickyView.js:225-243 | intended handler: throws iff some marked node resolves to `null`; otherwise each collected view is laid out exactly once; on a marker query of the document, whether it completes or throws, ancestors first, in collected order, up to the first `null` |
| Handler.ResizeAsWritten | StickyView.js:225-243 | handler as written: the same outcome condition and exactly-once; always in collected order, so ancestors first on a marker query; stops at the first entry where `ThrowsAt` holds |
| Scenarios.NestedChainLaysOutEach | StickyView.js:228-243 | for a nested chain of three views, all three are laid out, outermost first |
| Scenarios.EmptyMarkerStopsEarly | StickyView.js:234 | both loops end in a `TypeError`: the intended loop lays out [0, 1] before throwing, the as-written loop only [0] |
| Scenarios.ChildFirstNotClimbed | StickyView.js:234 | with a child before its parent, the as-written loop lays the child out first; the intended loop climbs to the parent first |
| Lifecycle.Pick | StickyView.js:57-58 | a key present in the options replaces the class's value |
| Lifecycle.View.constructor | StickyView.js:53-58 | the view keeps its options and client id; `template`, `el` and `model` come from the options when given; `modelBinding` always comes from the class |
| Lifecycle.TemplateData | StickyView.js:74-77 | `getTemplateData`: the model's attributes, or an empty object |
| Lifecycle.MarkupOf | StickyView.js:89-91 | the markup is the template string itself, or the compiled template applied to `TemplateData(model)` |
| Lifecycle.StartsWithTagMeaning | StickyView.js:95 | `/^\s*</` holds iff some `<` is preceded only by JavaScript whitespace |
| Lifecycle.RenderCheck | StickyView.js:82-105 | a template with an `el` is refused; a template whose markup lacks a leading tag or a single root is refused, carrying that markup; without a template nothing is refused |
| Lifecycle.ChoosePlacement | StickyView.js:118-123 | `appendTo` wins over `prependTo`, which wins over `replaceEl`; none is applied iff none is given |
| Lifecycle.Attach | StickyView.js:113-115 | the root stores the view and is marked, and the view's root is that node; the view and the node are the only new entries, and every other view and node is unchanged |
| Lifecycle.AttachRegisters | StickyView.js:113-115 | after registration `$.fn.view` on the root answers the view |
| Lifecycle.AttachPreserves | StickyView.js:113-115 | registering a new client id keeps the registry well formed |
| Lifecycle.RenderEffectsShape | StickyView.js:117-137 | at most one placement, first, the one `ChoosePlacement` picks; destroy wiring iff a model; bindings iff a model and rules; `onRender` last and once |
| Lifecycle.HookOrder | StickyView.js:60-71 | a successful construction ends with `onRender`, `createChildren`, `doLayout`, each exactly once |
| Lifecycle.Page.NewNode | StickyView.js:98-110 | a new element gets the next node number |
| Lifecycle.Page.ObtainElement | StickyView.js:82-111 | the template check's verdict is `RenderCheck`; on failure nothing changes; otherwise the root is the given `el` or a new node |
| Lifecycle.Page.Register | StickyView.js:113-137 | the registry becomes `Attach` of the root, and `_render`'s effects are recorded |
| Lifecycle.Page.RecordRender | StickyView.js:117-137 | placement, model wiring and `onRender` are recorded in that order |
| Lifecycle.Page.Render | StickyView.js:79-138 | `_render`: on a refused check, the registry and effects are unchanged; otherwise the registry is `Attach` of the root, and the effects are extended |
| Lifecycle.Page.RecordHooks | StickyView.js:67-71 | `createChildren` then `doLayout` are recorded |
| Lifecycle.Page.Construct | StickyView.js:51-72 | a client id is always taken; construction fails iff `RenderCheck` refuses, and then nothing is registered or recorded; on success the view has the given options, the picked `template`, `el` and `model` and the class's `modelBinding`; a node is allocated only when no `el` was given; the view is registered on its root, and `ConstructEffects` is recorded |

## Left out

- jQuery internals (`$()`, `.data`, `.closest`, `.parent`, `appendTo`/`prependTo`/`replaceAll`) are modelled by an abstract document of numbered nodes.
- Placement: the chosen placement is recorded as an effect. The node is not moved in the parent map, so within one model state the tree is static.
- HTML parsing of the template is a parameter `parse` that returns the number of root elements.
- Template function values: a compiled template is any function of the template data to a string.
- Backbone base-class behaviour is not modelled:
  - `initialize`;
  - `delegateEvents`;
  - the `className` class;
  - `_ensureElement` beyond "a new element";
  - `_.uniqueId` strings are modelled as a counter.
- Model wiring is recorded, not performed: `this.model.on('destroy', …)` is recorded as `DestroySubscribed`, and `bindModel(…).fireAll()` as `BindingsFired`. `bindCollection` and `viewSet` are not modelled; the modelled code does not call them.
- The bodies of `onRender`, `createChildren` and `doLayout` are not modelled. Construction and layout record when they are called. A hook that creates child views, changes the document or throws is not modelled.
- Error isolation around hooks is not modelled, because the source has none.
- The `window.resize` and document-ready registration (lines 222-223) are left out. `Handler.Resize` models the handler body.
- `$(MARKER_SELECTOR)` is the input `found`. `Handler.MarkerQuery` states what the query guarantees: every marked node inside the document (below its root node `top`) once, each after its ancestors. The root of a view that was constructed but never placed is marked but not found.
- Truthiness of option values is reduced to `Option`: an absent or falsy `appendTo`, `el` or `model` is `None`.
- The handler lays out every view of a nested chain A > B > C once, outermost first (`Scenarios.NestedChainLaysOutEach`). A `doLayout` that throws aborts the pass; since hook bodies are not modelled, that abort is not represented.

## Findings

| source | as written | input that shows it | evidently intended | confidence | as-written member | corrected member |
|---|---|---|---|---|---|---|
| StickyView.js:234 | the loop condition assigns the whole `&&` to `parentView`: `null`, or whether the variable's previous value (hoisted, so kept across iterations) is in `views`. The walk never climbs. After a view with no parent view, the variable holds `null`; if `null` is also pending, the next view with a parent view makes it `true`, and `true.parentView()` throws | a top-level view 0, its child view 1, and a marked node holding no view, found in that order: the intended loop lays out 0 and 1 then throws; as written, only 0 is laid out. Separately, a working set that lists view 1 before view 0 is laid out child-first | assign `view.parentView()` first, then test it: climb while the parent view exists and is in `views` | high for the null case (both loops still throw); the climb never runs, but with the handler's document-order query it never needs to; not executed | Layout.DrainAsWritten, Scenarios.EmptyMarkerStopsEarly, Scenarios.ChildFirstNotClimbed | Layout.Drain |
