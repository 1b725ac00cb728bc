/** Construction of a StickyView: the constructor copies the picked options
    onto the view, then `_render` checks the template, obtains the root node,
    registers the view on it, records the placement and the model wiring and
    calls `onRender`; the constructor then calls `createChildren` and
    `doLayout`. The page holds the registry every view writes to. */
module Lifecycle {
  import opened Seqs
  import opened Registry

  /** A key of the options object: absent, or present with a value. */
  datatype Setting<T> = Absent | Given(value: T)

  /** `_.extend(this, _.pick(options, [...]))`: a key present in the options
      replaces the value the class supplies. */
  function Pick<T>(s: Setting<T>, default: T): (r: T)
    ensures s.Given? ==> r == s.value
    ensures s.Absent? ==> r == default
  {
    match s
    case Absent => default
    case Given(v) => v
  }

  /** The `template` of a view: `null`, a markup string, or a compiled template function. */
  datatype Template = NoTemplate | Markup(text: string) | Compiled(render: map<string, string> -> string)

  /** A Backbone model, reduced to its attributes. */
  datatype Model = Model(attributes: map<string, string>)

  /** What a view class declares: `template`, `el`, `model` and `modelBinding`. */
  datatype ViewClass = ViewClass(template: Template, el: Option<Node>, model: Option<Model>, modelBinding: bool)

  /** The constructor's options: the picked keys, and the placement targets
      (`None`: absent or falsy). */
  datatype Options = Options(
    template: Setting<Template>,
    el: Setting<Option<Node>>,
    model: Setting<Option<Model>>,
    appendTo: Option<Node>,
    prependTo: Option<Node>,
    replaceEl: Option<Node>)

  datatype Placement = AppendTo(target: Node) | PrependTo(target: Node) | ReplaceAll(target: Node)

  /** What construction does outside the registry, in order. */
  datatype Effect = Placed(how: Placement) | DestroySubscribed | BindingsFired | OnRender | CreateChildren | DoLayout

  datatype Error = TemplatedWithEl | NotSingleRoot(markup: string)

  datatype Result<T> = Ok(value: T) | Err(error: Error)

  /** `getTemplateData`: the model's attributes, or an empty object without a model. */
  function TemplateData(model: Option<Model>): (r: map<string, string>)
    ensures model.Some? ==> r == model.value.attributes
    ensures model.None? ==> r == map[]
  {
    if model.Some? then model.value.attributes else map[]
  }

  /** The markup a template yields: the string itself, or the function applied to the template data. */
  function MarkupOf(t: Template, model: Option<Model>): (r: string)
    requires !t.NoTemplate?
    ensures t.Markup? ==> r == t.text
    ensures t.Compiled? ==> r == t.render(TemplateData(model))
  {
    match t
    case Markup(s) => s
    case Compiled(f) => f(TemplateData(model))
  }

  /** The characters `\s` matches in a JavaScript regular expression. */
  predicate IsJsSpace(c: char) {
    || c == ' ' || c == '\t' || c == '\n' || c == '\U{000B}' || c == '\U{000C}' || c == '\r'
    || c == '\U{00A0}' || c == '\U{1680}' || ('\U{2000}' <= c <= '\U{200A}')
    || c == '\U{2028}' || c == '\U{2029}' || c == '\U{202F}' || c == '\U{205F}'
    || c == '\U{3000}' || c == '\U{FEFF}'
  }

  /** The test `/^\s*</`. */
  function StartsWithTag(s: string): bool
  {
    if |s| == 0 then false
    else if s[0] == '<' then true
    else IsJsSpace(s[0]) && StartsWithTag(s[1..])
  }

  /** `/^\s*</` holds exactly when some `<` is preceded only by whitespace. */
  lemma {:induction false} StartsWithTagMeaning(s: string)
    ensures StartsWithTag(s) <==>
      exists i :: 0 <= i < |s| && s[i] == '<' && forall j :: 0 <= j < i ==> IsJsSpace(s[j])
  {
    if |s| > 0 && s[0] != '<' {
      StartsWithTagMeaning(s[1..]);
      if StartsWithTag(s) {
        var i :| 0 <= i < |s[1..]| && s[1..][i] == '<' && forall j :: 0 <= j < i ==> IsJsSpace(s[1..][j]);
        assert s[i + 1] == '<';
        forall j | 0 <= j < i + 1 ensures IsJsSpace(s[j]) {
          if j > 0 {
            assert s[j] == s[1..][j - 1];
          }
        }
      }
      if exists i :: 0 <= i < |s| && s[i] == '<' && forall j :: 0 <= j < i ==> IsJsSpace(s[j]) {
        var i :| 0 <= i < |s| && s[i] == '<' && forall j :: 0 <= j < i ==> IsJsSpace(s[j]);
        assert i > 0 && IsJsSpace(s[0]);
        assert s[1..][i - 1] == '<';
        forall j | 0 <= j < i - 1 ensures IsJsSpace(s[1..][j]) {
          assert s[1..][j] == s[j + 1];
        }
      }
    }
  }

  /** The template check: a root tag first, and exactly one root element once parsed. */
  predicate AcceptsMarkup(markup: string, parse: string -> nat) {
    StartsWithTag(markup) && parse(markup) == 1
  }

  /** `_render`'s checks: a template together with an `el` is refused; so is a
      template whose markup has no root tag first or does not parse to exactly
      one root element. Without a template there is nothing to check. */
  function RenderCheck(t: Template, el: Option<Node>, model: Option<Model>, parse: string -> nat): (r: Option<Error>)
    ensures t.NoTemplate? ==> r.None?
    ensures r == Some(TemplatedWithEl) <==> !t.NoTemplate? && el.Some?
    ensures (r.Some? && r.value.NotSingleRoot?) <==>
      !t.NoTemplate? && el.None? && !AcceptsMarkup(MarkupOf(t, model), parse)
    ensures r.Some? && r.value.NotSingleRoot? ==> !t.NoTemplate? && r.value.markup == MarkupOf(t, model)
  {
    if t.NoTemplate? then None
    else if el.Some? then Some(TemplatedWithEl)
    else if !AcceptsMarkup(MarkupOf(t, model), parse) then Some(NotSingleRoot(MarkupOf(t, model)))
    else None
  }

  /** The placement applied: `appendTo`, else `prependTo`, else `replaceEl`, else none. */
  function ChoosePlacement(opts: Options): (r: Option<Placement>)
    ensures r.None? <==> opts.appendTo.None? && opts.prependTo.None? && opts.replaceEl.None?
    ensures opts.appendTo.Some? ==> r == Some(AppendTo(opts.appendTo.value))
    ensures opts.appendTo.None? && opts.prependTo.Some? ==> r == Some(PrependTo(opts.prependTo.value))
    ensures opts.appendTo.None? && opts.prependTo.None? && opts.replaceEl.Some? ==>
      r == Some(ReplaceAll(opts.replaceEl.value))
  {
    if opts.appendTo.Some? then Some(AppendTo(opts.appendTo.value))
    else if opts.prependTo.Some? then Some(PrependTo(opts.prependTo.value))
    else if opts.replaceEl.Some? then Some(ReplaceAll(opts.replaceEl.value))
    else None
  }

  /** Registration: the view is stored on its root node, which gets the marker
      class; every other view keeps its root and every other node its view. */
  function Attach(doc: Doc, n: Node, v: ViewId): (r: Doc)
    ensures r.parent == doc.parent
    ensures n in r.marked && n in r.data && r.data[n] == v && v in r.roots && r.roots[v] == n
    ensures forall m :: m in r.marked <==> m in doc.marked || m == n
    ensures forall w :: w in doc.roots && w != v ==> w in r.roots && r.roots[w] == doc.roots[w]
    ensures forall m :: m in doc.data && m != n ==> m in r.data && r.data[m] == doc.data[m]
    ensures forall m :: m in r.data <==> m in doc.data || m == n
    ensures forall w :: w in r.roots <==> w in doc.roots || w == v
  {
    Doc(doc.parent, doc.data[n := v], doc.marked + {n}, doc.roots[v := n])
  }

  /** After registration the root node answers `$.fn.view` with the view. */
  lemma AttachRegisters(doc: Doc, n: Node, v: ViewId)
    requires Ordered(doc)
    ensures Ordered(Attach(doc, n, v))
    ensures ViewOf(Attach(doc, n, v), n) == Some(v)
  {
    ViewOfOwn(Attach(doc, n, v), n);
  }

  /** Registering a view with a new client id keeps the registry well formed. */
  lemma AttachPreserves(doc: Doc, n: Node, v: ViewId)
    requires Wf(doc) && DataMarked(doc) && v !in doc.roots
    ensures Wf(Attach(doc, n, v)) && DataMarked(Attach(doc, n, v))
  {
  }

  /** What `_render` records after registration: the placement and the model wiring... */
  function Wiring(opts: Options, model: Option<Model>, binding: bool): seq<Effect>
  {
    (if ChoosePlacement(opts).Some? then [Placed(ChoosePlacement(opts).value)] else [])
    + (if model.Some? then [DestroySubscribed] + (if binding then [BindingsFired] else []) else [])
  }

  /** ...then `onRender`. */
  function RenderEffects(opts: Options, model: Option<Model>, binding: bool): seq<Effect>
  {
    Wiring(opts, model, binding) + [OnRender]
  }

  /** What a successful construction records: `_render`'s effects, then the two hooks. */
  function ConstructEffects(opts: Options, model: Option<Model>, binding: bool): seq<Effect>
  {
    RenderEffects(opts, model, binding) + [CreateChildren, DoLayout]
  }

  /** `_render` records at most one placement, first, the one `ChoosePlacement`
      picks; the model is wired only when there is one, the bindings only when
      the class declares rules too; `onRender` comes last. */
  lemma RenderEffectsShape(opts: Options, model: Option<Model>, binding: bool)
    ensures var e := RenderEffects(opts, model, binding);
      && |e| >= 1 && e[|e| - 1] == OnRender
      && (forall i :: 0 <= i < |e| && e[i].Placed? ==> i == 0 && Some(e[i].how) == ChoosePlacement(opts))
      && (ChoosePlacement(opts).Some? ==> e[0] == Placed(ChoosePlacement(opts).value))
      && (DestroySubscribed in e <==> model.Some?)
      && (BindingsFired in e <==> model.Some? && binding)
      && CreateChildren !in e && DoLayout !in e && OnRender !in e[..|e| - 1]
  {
  }

  /** The constructor's hooks run `onRender`, `createChildren`, `doLayout`,
      each exactly once, in that order, and nothing follows them. */
  lemma HookOrder(opts: Options, model: Option<Model>, binding: bool)
    ensures var e := ConstructEffects(opts, model, binding);
      && |e| >= 3
      && e[|e| - 3] == OnRender && e[|e| - 2] == CreateChildren && e[|e| - 1] == DoLayout
      && multiset(e)[OnRender] == 1 && multiset(e)[CreateChildren] == 1 && multiset(e)[DoLayout] == 1
  {
    var w := Wiring(opts, model, binding);
    assert RenderEffects(opts, model, binding) == w + [OnRender];
    assert (w + [OnRender]) + [CreateChildren, DoLayout] == w + [OnRender, CreateChildren, DoLayout];
    WiringHasNoHooks(opts, model, binding);
    HooksOnce(w);
  }

  lemma WiringHasNoHooks(opts: Options, model: Option<Model>, binding: bool)
    ensures OnRender !in Wiring(opts, model, binding)
    ensures CreateChildren !in Wiring(opts, model, binding)
    ensures DoLayout !in Wiring(opts, model, binding)
  {
  }

  lemma HooksOnce(w: seq<Effect>)
    requires OnRender !in w && CreateChildren !in w && DoLayout !in w
    ensures var e := w + [OnRender, CreateChildren, DoLayout];
      && |e| >= 3
      && e[|e| - 3] == OnRender && e[|e| - 2] == CreateChildren && e[|e| - 1] == DoLayout
      && multiset(e)[OnRender] == 1 && multiset(e)[CreateChildren] == 1 && multiset(e)[DoLayout] == 1
  {
    assert multiset(w + [OnRender, CreateChildren, DoLayout]) == multiset(w) + multiset{OnRender, CreateChildren, DoLayout};
  }

  /** The registry of a page whose existing nodes are those below `nodes` and
      whose client ids so far are below `cids`. */
  ghost predicate Fits(doc: Doc, nodes: nat, cids: nat) {
    && Wf(doc) && DataMarked(doc)
    && (forall v :: v in doc.roots ==> v < cids && doc.roots[v] < nodes)
    && (forall n :: n in doc.parent ==> n < nodes)
    && (forall n :: n in doc.marked ==> n < nodes)
  }

  lemma AttachFits(doc: Doc, nodes: nat, cids: nat, n: Node, v: ViewId)
    requires Fits(doc, nodes, cids) && n < nodes && v < cids && v !in doc.roots
    ensures Fits(Attach(doc, n, v), nodes, cids)
  {
    var r := Attach(doc, n, v);
    AttachPreserves(doc, n, v);
    assert forall w :: w in r.roots ==> w == v || w in doc.roots;
  }

  /** A client id at or above the bound is not taken, and the bound may be raised. */
  lemma FitsMoreIds(doc: Doc, nodes: nat, cids: nat)
    requires Fits(doc, nodes, cids)
    ensures Fits(doc, nodes, cids + 1) && cids !in doc.roots
  {
  }

  /** A view object, with the fields the constructor and `_render` assign. */
  class View {
    const cid: ViewId
    const options: Options
    const template: Template
    var el: Option<Node>
    const model: Option<Model>
    const modelBinding: bool

    /** Keep the options, take a client id, and copy the picked options over
        the values the class declares; `modelBinding` is not among the picked
        keys, so it is always the class's. */
    constructor(cid: ViewId, cls: ViewClass, opts: Options)
      ensures this.cid == cid && options == opts
      ensures template == Pick(opts.template, cls.template)
      ensures el == Pick(opts.el, cls.el)
      ensures model == Pick(opts.model, cls.model)
      ensures modelBinding == cls.modelBinding
    {
      this.cid := cid;
      options := opts;
      template := Pick(opts.template, cls.template);
      el := Pick(opts.el, cls.el);
      model := Pick(opts.model, cls.model);
      modelBinding := cls.modelBinding;
    }
  }

  /** The page: its registry, the next node a new element gets, the next
      client id, and the effects recorded so far. */
  class Page {
    var doc: Doc
    var nextNode: Node
    var nextCid: ViewId
    var effects: seq<Effect>

    ghost predicate Valid()
      reads this`doc, this`nextNode, this`nextCid
    {
      Fits(doc, nextNode, nextCid)
    }

    constructor(doc0: Doc, nodes: nat, cids: nat)
      requires Fits(doc0, nodes, cids)
      ensures Valid()
      ensures doc == doc0 && nextNode == nodes && nextCid == cids && effects == []
    {
      doc := doc0;
      nextNode := nodes;
      nextCid := cids;
      effects := [];
    }

    /** A new element, not yet in the document: the one `$(markup)` parses or
        the one `_ensureElement` creates. */
    method NewNode() returns (n: Node)
      requires Valid()
      modifies this
      ensures Valid()
      ensures n == old(nextNode) && nextNode == n + 1
      ensures doc == old(doc) && nextCid == old(nextCid) && effects == old(effects)
    {
      n := nextNode;
      nextNode := nextNode + 1;
    }

    /** `_render`: obtain the root node, then register the view on it. */
    method Render(view: View, parse: string -> nat) returns (err: Option<Error>)
      requires Valid() && view.cid < nextCid && view.cid !in doc.roots
      requires view.el.Some? ==> view.el.value < nextNode
      modifies this, view`el
      ensures Valid() && nextCid == old(nextCid)
      ensures err == RenderCheck(view.template, old(view.el), view.model, parse)
      ensures err.Some? ==> doc == old(doc) && effects == old(effects) && nextNode == old(nextNode) && view.el == old(view.el)
      ensures err.None? ==>
        && view.el == (if old(view.el).Some? then old(view.el) else Some(old(nextNode)))
        && nextNode == (if old(view.el).Some? then old(nextNode) else old(nextNode) + 1)
        && doc == Attach(old(doc), view.el.value, view.cid)
        && effects == old(effects) + RenderEffects(view.options, view.model, view.modelBinding)
    {
      err := ObtainElement(view, parse);
      if err.None? {
        Register(view);
      }
    }

    /** The first half of `_render`: check the template and obtain the root
        node, parsed from the markup, the given `el`, or a new element. */
    method ObtainElement(view: View, parse: string -> nat) returns (err: Option<Error>)
      requires Valid()
      requires view.el.Some? ==> view.el.value < nextNode
      modifies this, view`el
      ensures Valid() && nextCid == old(nextCid) && doc == old(doc) && effects == old(effects)
      ensures err == RenderCheck(view.template, old(view.el), view.model, parse)
      ensures err.Some? ==> nextNode == old(nextNode) && view.el == old(view.el)
      ensures err.None? ==>
        && view.el == (if old(view.el).Some? then old(view.el) else Some(old(nextNode)))
        && nextNode == (if old(view.el).Some? then old(nextNode) else old(nextNode) + 1)
        && view.el.value < nextNode
    {
      // Initialize by template, if used
      if !view.template.NoTemplate? {
        if view.el.Some? {
          return Some(TemplatedWithEl);
        }
        var markup := MarkupOf(view.template, view.model);
        if !(StartsWithTag(markup) && parse(markup) == 1) {
          return Some(NotSingleRoot(markup));
        }
        var n := NewNode();
        view.el := Some(n);
      } else if view.el.None? {
        // `_ensureElement` creates the element
        var n := NewNode();
        view.el := Some(n);
      }
      err := None;
    }

    /** The second half of `_render`: store the view on its root node with the
        marker class, record the placement and the model wiring, call `onRender`. */
    method Register(view: View)
      requires Valid() && view.cid < nextCid && view.cid !in doc.roots
      requires view.el.Some? && view.el.value < nextNode
      modifies this
      ensures Valid() && nextCid == old(nextCid) && nextNode == old(nextNode)
      ensures doc == Attach(old(doc), view.el.value, view.cid)
      ensures effects == old(effects) + RenderEffects(view.options, view.model, view.modelBinding)
    {
      // Attach
      AttachFits(doc, nextNode, nextCid, view.el.value, view.cid);
      doc := Attach(doc, view.el.value, view.cid);
      RecordRender(view.options, view.model, view.modelBinding);
    }

    /** The placement, the model wiring and `onRender`, recorded in that order. */
    method RecordRender(options: Options, model: Option<Model>, modelBinding: bool)
      modifies this`effects
      ensures effects == old(effects) + RenderEffects(options, model, modelBinding)
    {
      // Insert to parent
      ghost var start := effects;
      var placement := ChoosePlacement(options);
      if placement.Some? {
        effects := effects + [Placed(placement.value)];
      }
      ghost var placed := effects;
      assert placed == start + (if placement.Some? then [Placed(placement.value)] else []);
      // Connect model
      if model.Some? {
        effects := effects + [DestroySubscribed];
        if modelBinding {
          effects := effects + [BindingsFired];
        }
      }
      assert effects == placed + (if model.Some? then [DestroySubscribed] + (if modelBinding then [BindingsFired] else []) else []);
      effects := effects + [OnRender];
    }

    /** `new StickyView(options)` of a class: a client id is taken even when
        `_render` throws; on success the hooks follow `_render`. */
    method Construct(cls: ViewClass, opts: Options, parse: string -> nat) returns (r: Result<View>)
      requires Valid()
      requires Pick(opts.el, cls.el).Some? ==> Pick(opts.el, cls.el).value < nextNode
      modifies this
      ensures Valid() && nextCid == old(nextCid) + 1
      ensures var check := RenderCheck(Pick(opts.template, cls.template), Pick(opts.el, cls.el), Pick(opts.model, cls.model), parse);
        && (r.Err? <==> check.Some?)
        && (r.Err? ==> r.error == check.value)
      ensures r.Err? ==> doc == old(doc) && effects == old(effects) && nextNode == old(nextNode)
      ensures r.Ok? ==>
        && fresh(r.value)
        && r.value.cid == old(nextCid)
        && r.value.options == opts
        && r.value.template == Pick(opts.template, cls.template)
        && r.value.model == Pick(opts.model, cls.model)
        && r.value.modelBinding == cls.modelBinding
        && nextNode == (if Pick(opts.el, cls.el).Some? then old(nextNode) else old(nextNode) + 1)
        && r.value.el == (if Pick(opts.el, cls.el).Some? then Pick(opts.el, cls.el) else Some(old(nextNode)))
        && doc == Attach(old(doc), r.value.el.value, old(nextCid))
        && effects == old(effects) + ConstructEffects(opts, Pick(opts.model, cls.model), cls.modelBinding)
    {
      FitsMoreIds(doc, nextNode, nextCid);
      var cid := nextCid;
      nextCid := nextCid + 1;
      var view := new View(cid, cls, opts);
      var err := Render(view, parse);
      if err.Some? {
        return Err(err.value);
      }
      RecordHooks();
      return Ok(view);
    }

    /** The two hooks the constructor calls after `_render`. */
    method RecordHooks()
      modifies this`effects
      ensures effects == old(effects) + [CreateChildren, DoLayout]
    {
      // Create children after render and initialization
      effects := effects + [CreateChildren];
      // Apply size on initialization
      effects := effects + [DoLayout];
    }
  }
}
