/** `LDPApp` (ldp/app.py): the application object that registers resource
    bindings with their view functions and, for each request, decides whether
    to dispatch ordinarily, to call a resource-bound view with the resolved
    resource, to hand the resource to the application of its LDP types, or to
    answer that nothing was found. */
module App {
  import opened Wrappers
  import opened Values
  import opened UriTemplate
  import opened Bindings
  import Store
  import LdpTypes

  /** The `rdf:type` predicate. */
  const RdfType: string := "http://www.w3.org/1999/02/22-rdf-syntax-ns#type"

  /** A view function: `id` stands for the function object's identity (two
      functions may share a `__name__`), `name` for its `__name__`. */
  datatype View = View(name: string, id: nat)

  /** What the framework hands to `dispatch_request`: the matched endpoint,
      the view arguments, whether routing failed, and whether the client asks
      for an RDF source (`wants_rdfsource`, taken as given). */
  datatype Request = Request(endpoint: string, viewArgs: map<string, Value>,
                             routingException: bool, wantsRdf: bool)

  /** A view argument: a matched value, or the resource a binding resolved
      (its identifier and the statements of its pool graph). */
  datatype Arg = Plain(value: Value) | Res(iri: string, graph: set<Store.Triple>)

  /** The ways a request ends. */
  datatype Response =
    | RoutingError                                   // `raise_routing_exception(req)` with the routing exception set
    | RaisedNone                                     // `raise_routing_exception(req)` with none set: `raise None`, a `TypeError`
    | Ordinary                                       // Flask's own `dispatch_request`
    | FormatRaised(error: FormatError)               // `uriref` could not format its template
    | NoView(endpoint: string)                       // `KeyError` on the view table
    | ViewCall(view: View, args: map<string, Arg>)   // the resource-bound view is called
    | ResourceApp(types: set<string>, iri: string, graph: set<Store.Triple>)  // `get_resource_app(types)`

  // ---------------------------------------------------------------------
  // add_resource_rule
  // ---------------------------------------------------------------------

  /** The bindings in registration order and the endpoint-to-view table. */
  datatype Registry = Registry(rules: seq<Binding>, views: map<string, View>)

  /** A registry after a registration, and the endpoint used or the
      `AssertionError` raised. */
  datatype Registration = Registration(registry: Registry, result: Result<string, string>)

  /** The messages of the two `AssertionError`s. */
  const NoEndpointError: string := "expected view func if endpoint is not explicitly set"
  const OverwriteError: string := "View function mapping is overwriting an existing endpoint function"

  /** The endpoint a registration uses: the given one, else the view's name
      (`_endpoint_from_view_func`). */
  function EndpointOf(endpoint: Option<string>, view: Option<View>): string
  {
    if endpoint.Some? then endpoint.value else if view.Some? then view.value.name else ""
  }

  /** `add_resource_rule`: the endpoint defaults to the view's name (an
      `AssertionError` when there is neither); the binding is added before
      the view is checked, so a view that would overwrite another endpoint
      function raises with the binding already in place; registering the
      same view again is allowed. */
  function Register(reg: Registry, rule: string, varname: string, endpoint: Option<string>,
                    view: Option<View>, context: Store.Context, types: seq<string>): Registration
  {
    if endpoint.None? && view.None? then
      Registration(reg, Failure(NoEndpointError))
    else
      var e := EndpointOf(endpoint, view);
      var rules := reg.rules + [Binding(rule, varname, e, context, types)];
      if view.None? then Registration(Registry(rules, reg.views), Success(e))
      else if e in reg.views && reg.views[e] != view.value then
        Registration(Registry(rules, reg.views), Failure(OverwriteError))
      else Registration(Registry(rules, reg.views[e := view.value]), Success(e))
  }

  /** A registration fails exactly when there is neither endpoint nor view,
      or when the endpoint already has a different view; it adds one binding
      unless there is neither; on success the endpoint's view is the given
      one. */
  lemma RegisterMeaning(reg: Registry, rule: string, varname: string, endpoint: Option<string>,
                        view: Option<View>, context: Store.Context, types: seq<string>)
    ensures var out := Register(reg, rule, varname, endpoint, view, context, types);
            var e := EndpointOf(endpoint, view);
            && (endpoint.None? && view.None? ==> out.registry == reg && out.result.Failure?)
            && (endpoint.Some? || view.Some? ==>
                  && out.registry.rules == reg.rules + [Binding(rule, varname, e, context, types)]
                  && (out.result.Failure? <==> view.Some? && e in reg.views && reg.views[e] != view.value)
                  && (out.result.Success? ==> out.result.value == e)
                  && (out.result.Success? && view.Some? ==> e in out.registry.views && out.registry.views[e] == view.value))
  {
  }

  /** No registration replaces or removes an endpoint's view; the only view
      it can add is the given one. */
  lemma RegisterKeepsViews(reg: Registry, rule: string, varname: string, endpoint: Option<string>,
                           view: Option<View>, context: Store.Context, types: seq<string>)
    ensures var out := Register(reg, rule, varname, endpoint, view, context, types);
            && (forall k :: k in reg.views ==> k in out.registry.views && out.registry.views[k] == reg.views[k])
            && (forall k :: k in out.registry.views && k !in reg.views ==> view.Some? && out.registry.views[k] == view.value)
  {
    var views := Register(reg, rule, varname, endpoint, view, context, types).registry.views;
    var e := EndpointOf(endpoint, view);
    if view.Some? && !(e in reg.views && reg.views[e] != view.value) {
      assert views == reg.views[e := view.value];
    } else {
      assert views == reg.views;
    }
  }

  // ---------------------------------------------------------------------
  // dispatch_request
  // ---------------------------------------------------------------------

  /** The binding that resolved, the identifier it produced and the
      statements of the resource. */
  datatype Found = Found(rule: Binding, iri: string, graph: set<Store.Triple>)

  /** The store after trying bindings, and the first hit (or why none). */
  datatype Search = Search(state: Store.State, result: Result<Option<Found>, FormatError>)

  /** The loop of `dispatch_request`: each binding in turn formats its
      identifier from the view arguments and looks the resource up; the
      first lookup that answers wins, and each lookup may move statements
      into the pool before the next one runs. */
  function FirstResolving(st: Store.State, rules: seq<Binding>, args: map<string, Value>,
                          selectors: seq<Store.Selector>): Search
    decreases |rules|
  {
    if rules == [] then Search(st, Success(None))
    else
      match Uriref(rules[0].rule, args)
      case Failure(e) => Search(st, Failure(e))
      case Success(iri) =>
        var o := Store.Resolve(st, iri, rules[0].context, selectors);
        if o.found.Some? then Search(o.state, Success(Some(Found(rules[0], iri, o.found.value))))
        else FirstResolving(o.state, rules[1..], args, selectors)
  }

  /** The binding's identifier can be formatted and has an empty pool graph. */
  predicate EmptyPooled(pool: map<string, set<Store.Triple>>, b: Binding, args: map<string, Value>)
  {
    Uriref(b.rule, args).Success? && Uriref(b.rule, args).value in pool && pool[Uriref(b.rule, args).value] == {}
  }

  /** A lookup never drops or changes a pool graph that already exists. */
  lemma ResolveKeepsPool(st: Store.State, uri: string, ctx: Store.Context, selectors: seq<Store.Selector>)
    ensures var o := Store.Resolve(st, uri, ctx, selectors);
            forall k :: k in st.pool ==> k in o.state.pool && o.state.pool[k] == st.pool[k]
  {
  }

  /** A lookup that answers `None` leaves an empty pool graph behind. */
  lemma ResolveMiss(st: Store.State, uri: string, ctx: Store.Context, selectors: seq<Store.Selector>)
    ensures var o := Store.Resolve(st, uri, ctx, selectors);
            o.found.None? ==> uri in o.state.pool && o.state.pool[uri] == {}
  {
    var moved := Store.Survivors(st.data, uri, ctx, selectors);
    if uri !in st.pool && moved == {} {
      assert Store.Triples(moved) == {};
    }
  }

  /** Trying bindings never drops or changes an existing pool graph. */
  lemma {:induction false} PoolKept(st: Store.State, rules: seq<Binding>, args: map<string, Value>,
                                    selectors: seq<Store.Selector>)
    ensures var s := FirstResolving(st, rules, args, selectors);
            forall k :: k in st.pool ==> k in s.state.pool && s.state.pool[k] == st.pool[k]
    decreases |rules|
  {
    if rules != [] && Uriref(rules[0].rule, args).Success? {
      var iri := Uriref(rules[0].rule, args).value;
      var o := Store.Resolve(st, iri, rules[0].context, selectors);
      ResolveKeepsPool(st, iri, rules[0].context, selectors);
      if o.found.None? {
        PoolKept(o.state, rules[1..], args, selectors);
      }
    }
  }

  /** Bindings whose arguments are all among the view arguments always
      format their identifiers: the loop never raises `KeyError`. */
  lemma {:induction false} RankedFormat(st: Store.State, rules: seq<Binding>, args: map<string, Value>,
                                        selectors: seq<Store.Selector>)
    requires forall b :: b in rules ==> ArgumentsOf(b) <= args.Keys
    ensures FirstResolving(st, rules, args, selectors).result.Success?
    decreases |rules|
  {
    if rules != [] {
      BindingFills(rules[0], args);
      var iri := Uriref(rules[0].rule, args).value;
      var o := Store.Resolve(st, iri, rules[0].context, selectors);
      if o.found.None? {
        assert forall b :: b in rules[1..] ==> b in rules;
        RankedFormat(o.state, rules[1..], args, selectors);
      }
    }
  }

  /** When no binding resolves, every binding tried has left an empty pool
      graph under its identifier. */
  lemma {:induction false} MissPoolsEmpty(st: Store.State, rules: seq<Binding>, args: map<string, Value>,
                                          selectors: seq<Store.Selector>)
    ensures var s := FirstResolving(st, rules, args, selectors);
            s.result == Success(None) ==> forall j :: 0 <= j < |rules| ==> EmptyPooled(s.state.pool, rules[j], args)
    decreases |rules|
  {
    var s := FirstResolving(st, rules, args, selectors);
    if rules != [] && s.result == Success(None) {
      var iri := Uriref(rules[0].rule, args).value;
      var o := Store.Resolve(st, iri, rules[0].context, selectors);
      ResolveMiss(st, iri, rules[0].context, selectors);
      MissPoolsEmpty(o.state, rules[1..], args, selectors);
      PoolKept(o.state, rules[1..], args, selectors);
      forall j | 0 <= j < |rules|
        ensures EmptyPooled(s.state.pool, rules[j], args)
      {
        if j > 0 {
          assert rules[j] == rules[1..][j - 1];
        }
      }
    }
  }

  /** When a binding resolves, it is the first one whose lookup answered:
      every binding before it left an empty pool graph, and the resource is
      its identifier's pool graph. */
  lemma {:induction false} HitIsFirst(st: Store.State, rules: seq<Binding>, args: map<string, Value>,
                                      selectors: seq<Store.Selector>)
    ensures var s := FirstResolving(st, rules, args, selectors);
            s.result.Success? && s.result.value.Some? ==>
              && s.result.value.value.iri in s.state.pool
              && s.state.pool[s.result.value.value.iri] == s.result.value.value.graph
              && exists k :: 0 <= k < |rules| && rules[k] == s.result.value.value.rule
                   && Uriref(rules[k].rule, args) == Success(s.result.value.value.iri)
                   && forall j :: 0 <= j < k ==> EmptyPooled(s.state.pool, rules[j], args)
    decreases |rules|
  {
    var s := FirstResolving(st, rules, args, selectors);
    if rules != [] && s.result.Success? && s.result.value.Some? {
      var iri := Uriref(rules[0].rule, args).value;
      var o := Store.Resolve(st, iri, rules[0].context, selectors);
      if o.found.Some? {
        assert rules[0] == s.result.value.value.rule;
      } else {
        var f := s.result.value.value;
        ResolveMiss(st, iri, rules[0].context, selectors);
        HitIsFirst(o.state, rules[1..], args, selectors);
        PoolKept(o.state, rules[1..], args, selectors);
        var k' :| 0 <= k' < |rules[1..]| && rules[1..][k'] == f.rule
                  && Uriref(rules[1..][k'].rule, args) == Success(f.iri)
                  && forall j :: 0 <= j < k' ==> EmptyPooled(s.state.pool, rules[1..][j], args);
        forall j | 0 <= j < k' + 1
          ensures EmptyPooled(s.state.pool, rules[j], args)
        {
          if j > 0 {
            assert rules[j] == rules[1..][j - 1];
          }
        }
        assert rules[k' + 1] == f.rule;
      }
    }
  }

  /** `resource_view`'s type filter: the resource's `rdf:type` values that
      are LDP types, or RDFSource when it states none. */
  function ResourceTypes(iri: string, graph: set<Store.Triple>): (r: set<string>)
    ensures r != {} && forall t :: t in r ==> t in LdpTypes.TypesList
    ensures (exists t :: t in LdpTypes.TypesList && Store.Triple(iri, RdfType, t) in graph) ==>
              forall t :: t in r <==> t in LdpTypes.TypesList && Store.Triple(iri, RdfType, t) in graph
    ensures (forall t :: t in LdpTypes.TypesList ==> Store.Triple(iri, RdfType, t) !in graph) ==>
              r == {LdpTypes.RDFSource}
  {
    var stated := set t | t in LdpTypes.TypesList && Store.Triple(iri, RdfType, t) in graph;
    if stated == {} then
      assert forall t :: t in LdpTypes.TypesList && Store.Triple(iri, RdfType, t) in graph ==> t in stated;
      {LdpTypes.RDFSource}
    else stated
  }

  /** The view arguments as handed to a view, before the resource is set. */
  function PlainArgs(args: map<string, Value>): (r: map<string, Arg>)
    ensures r.Keys == args.Keys && forall k :: k in args ==> r[k] == Plain(args[k])
  {
    map k | k in args :: Plain(args[k])
  }

  /** `resource_view`: without an RDF source wanted, the endpoint's view is
      called with the resource in place of its variable (`KeyError` when the
      endpoint has no view); otherwise the application of the resource's
      LDP types takes over. */
  function ResourceView(views: map<string, View>, req: Request, f: Found): Response
  {
    if !req.wantsRdf then
      if f.rule.endpoint in views then
        ViewCall(views[f.rule.endpoint], PlainArgs(req.viewArgs)[f.rule.varname := Res(f.iri, f.graph)])
      else NoView(f.rule.endpoint)
    else ResourceApp(ResourceTypes(f.iri, f.graph), f.iri, f.graph)
  }

  /** What a view receives: every view argument unchanged except the
      binding's variable, which holds the resource. */
  lemma ViewArgs(views: map<string, View>, req: Request, f: Found)
    ensures var resp := ResourceView(views, req, f);
            && (resp.ViewCall? <==> !req.wantsRdf && f.rule.endpoint in views)
            && (resp.NoView? <==> !req.wantsRdf && f.rule.endpoint !in views)
            && (resp.ResourceApp? <==> req.wantsRdf)
            && (resp.ViewCall? ==>
                  && resp.view == views[f.rule.endpoint]
                  && resp.args.Keys == req.viewArgs.Keys + {f.rule.varname}
                  && resp.args[f.rule.varname] == Res(f.iri, f.graph)
                  && forall k :: k in req.viewArgs && k != f.rule.varname ==> resp.args[k] == Plain(req.viewArgs[k]))
  {
  }

  /** The store after a request and the way the request ended. */
  datatype Served = Served(state: Store.State, response: Response)

  /** A binding of the request's endpoint whose arguments are all among the
      view arguments. */
  predicate Bound(reg: Registry, req: Request, b: Binding)
  {
    b in reg.rules && b.endpoint == req.endpoint && ArgumentsOf(b) <= req.viewArgs.Keys
  }

  /** `endpoint_rules(req.endpoint, req.view_args)`: the bindings that apply,
      ranked; `None` when none applies. */
  function Ranked(reg: Registry, req: Request): (r: Option<seq<Binding>>)
    ensures r.Some? <==> exists b :: Bound(reg, req, b)
    ensures r.Some? ==> forall b :: b in r.value <==> Bound(reg, req, b)
  {
    var candidates := OfEndpoint(reg.rules, req.endpoint);
    assert forall b :: Bound(reg, req, b) <==> b in candidates && ArgumentsOf(b) <= req.viewArgs.Keys;
    RulesWithSuitableArgs(req.viewArgs.Keys, candidates)
  }

  /** `dispatch_request`. */
  function Dispatch(st: Store.State, reg: Registry, req: Request, selectors: seq<Store.Selector>): Served
  {
    if req.routingException then Served(st, RoutingError)
    else
      match Ranked(reg, req)
      case None => Served(st, Ordinary)
      case Some(ranked) =>
        var s := FirstResolving(st, ranked, req.viewArgs, selectors);
        match s.result
        case Failure(e) => Served(s.state, FormatRaised(e))
        case Success(None) => Served(s.state, RaisedNone)
        case Success(Some(f)) => Served(s.state, ResourceView(reg.views, req, f))
  }

  /** Routing failures come first; dispatch is ordinary exactly when no
      binding of the endpoint can be formatted from the view arguments, and
      then the store is untouched. */
  lemma DispatchMeaning(st: Store.State, reg: Registry, req: Request, selectors: seq<Store.Selector>)
    ensures var d := Dispatch(st, reg, req, selectors);
            && (req.routingException ==> d == Served(st, RoutingError))
            && (!req.routingException ==> (d.response == Ordinary <==> forall b :: !Bound(reg, req, b)))
            && (d.response == Ordinary ==> d.state == st)
  {
    var r := Ranked(reg, req);
    if !req.routingException && r.Some? {
      var s := FirstResolving(st, r.value, req.viewArgs, selectors);
      if s.result.Success? && s.result.value.Some? {
        assert !ResourceView(reg.views, req, s.result.value.value).Ordinary?;
      }
    }
  }

  /** The ranked bindings always format their identifiers, so dispatch never
      raises a formatting `KeyError`. */
  lemma NeverFormatError(st: Store.State, reg: Registry, req: Request, selectors: seq<Store.Selector>)
    ensures !Dispatch(st, reg, req, selectors).response.FormatRaised?
  {
    var r := Ranked(reg, req);
    if !req.routingException && r.Some? {
      RankedFormat(st, r.value, req.viewArgs, selectors);
      var s := FirstResolving(st, r.value, req.viewArgs, selectors);
      if s.result.Success? && s.result.value.Some? {
        assert !ResourceView(reg.views, req, s.result.value.value).FormatRaised?;
      }
    }
  }

  /** A request that some binding applied to but none resolved ends in
      `raise_routing_exception` with no routing exception set, that is in
      `raise None`; on the way every applicable binding has left an empty
      pool graph under its identifier. */
  lemma NotFoundMeaning(st: Store.State, reg: Registry, req: Request, selectors: seq<Store.Selector>)
    requires !req.routingException
    ensures var d := Dispatch(st, reg, req, selectors);
            && (d.response == RaisedNone <==>
                  Ranked(reg, req).Some? &&
                  FirstResolving(st, Ranked(reg, req).value, req.viewArgs, selectors).result == Success(None))
            && (d.response == RaisedNone ==>
                  forall b :: Bound(reg, req, b) ==> EmptyPooled(d.state.pool, b, req.viewArgs))
  {
    var d := Dispatch(st, reg, req, selectors);
    var r := Ranked(reg, req);
    if r.Some? {
      var s := FirstResolving(st, r.value, req.viewArgs, selectors);
      if s.result.Success? && s.result.value.Some? {
        assert !ResourceView(reg.views, req, s.result.value.value).RaisedNone?;
      }
      if d.response == RaisedNone {
        assert s.result == Success(None) && d.state == s.state;
        MissPoolsEmpty(st, r.value, req.viewArgs, selectors);
        forall b | Bound(reg, req, b)
          ensures EmptyPooled(d.state.pool, b, req.viewArgs)
        {
          assert b in r.value;
          var j :| 0 <= j < |r.value| && r.value[j] == b;
        }
      }
    }
  }

  /** A served resource comes from a binding that applied, under the
      identifier it formats, and is that identifier's pool graph. */
  lemma FoundMeaning(st: Store.State, reg: Registry, req: Request, selectors: seq<Store.Selector>)
    requires !req.routingException
    ensures var d := Dispatch(st, reg, req, selectors);
            d.response.ResourceApp? ==>
              && d.response.iri in d.state.pool && d.state.pool[d.response.iri] == d.response.graph
              && exists b :: Bound(reg, req, b) && Uriref(b.rule, req.viewArgs) == Success(d.response.iri)
  {
    var d := Dispatch(st, reg, req, selectors);
    var r := Ranked(reg, req);
    if r.Some? && d.response.ResourceApp? {
      HitIsFirst(st, r.value, req.viewArgs, selectors);
      var s := FirstResolving(st, r.value, req.viewArgs, selectors);
      var k :| 0 <= k < |r.value| && r.value[k] == s.result.value.value.rule
               && Uriref(r.value[k].rule, req.viewArgs) == Success(s.result.value.value.iri);
      assert r.value[k] in r.value;
      assert Bound(reg, req, r.value[k]);
    }
  }

  /** The loop of `dispatch_request` over the ranked bindings, each tried on
      the view arguments, returning at the first resource found. */
  method TryRules(rules: seq<Binding>, args: map<string, Value>, store: Store.QuadStore,
                  selectors: seq<Store.Selector>)
    returns (r: Result<Option<Found>, FormatError>)
    modifies store
    ensures Search(store.Snapshot(), r) == FirstResolving(old(store.Snapshot()), rules, args, selectors)
  {
    var i := 0;
    while i < |rules|
      invariant 0 <= i <= |rules|
      invariant FirstResolving(old(store.Snapshot()), rules, args, selectors)
                == FirstResolving(store.Snapshot(), rules[i..], args, selectors)
    {
      ghost var st := store.Snapshot();
      ghost var rest := rules[i..];
      assert rest[0] == rules[i] && rest[1..] == rules[i + 1..];
      var iri := Uriref(rules[i].rule, args);
      if iri.Failure? {
        return Failure(iri.error);
      }
      var found := store.Resource(iri.value, rules[i].context, selectors);
      FirstResolvingStep(st, rest, args, selectors, iri.value, Store.Outcome(store.Snapshot(), found));
      if found.Some? {
        return Success(Some(Found(rules[i], iri.value, found.value)));
      }
      i := i + 1;
    }
    r := Success(None);
  }

  /** One step of the search: a binding whose identifier formats is looked
      up, and the search stops at it or goes on from the updated store. */
  lemma FirstResolvingStep(st: Store.State, rules: seq<Binding>, args: map<string, Value>,
                           selectors: seq<Store.Selector>, iri: string, o: Store.Outcome)
    requires rules != [] && Uriref(rules[0].rule, args) == Success(iri)
    requires o == Store.Resolve(st, iri, rules[0].context, selectors)
    ensures o.found.Some? ==>
              FirstResolving(st, rules, args, selectors) == Search(o.state, Success(Some(Found(rules[0], iri, o.found.value))))
    ensures o.found.None? ==>
              FirstResolving(st, rules, args, selectors) == FirstResolving(o.state, rules[1..], args, selectors)
  {
  }

  // ---------------------------------------------------------------------
  // The application object
  // ---------------------------------------------------------------------

  /** `LDPApp`: the resource map and the endpoint-to-view table. */
  class LdpApp {
    const resourceMap: ResourceMap
    var views: map<string, View>

    ghost predicate Valid()
      reads this, resourceMap
    {
      resourceMap.Valid()
    }

    /** The registered bindings and views. */
    function Registered(): Registry
      reads this, resourceMap
    {
      Registry(resourceMap.rules, views)
    }

    /** `LDPApp(...)`: an empty resource map and no views. */
    constructor ()
      ensures Valid() && fresh(resourceMap) && Registered() == Registry([], map[])
    {
      resourceMap := new ResourceMap([], map[]);
      views := map[];
    }

    /** `add_resource_rule`. */
    method AddResourceRule(rule: string, varname: string, endpoint: Option<string>,
                           view: Option<View>, context: Store.Context, types: seq<string>)
      returns (r: Result<string, string>)
      requires Valid()
      modifies this, resourceMap
      ensures Valid()
      ensures Registration(Registered(), r) == Register(old(Registered()), rule, varname, endpoint, view, context, types)
    {
      if endpoint.None? && view.None? {
        return Failure(NoEndpointError);
      }
      var e := EndpointOf(endpoint, view);
      resourceMap.Add(Binding(rule, varname, e, context, types));
      if view.Some? {
        if e in views && views[e] != view.value {
          return Failure(OverwriteError);
        }
        views := views[e := view.value];
      }
      r := Success(e);
    }

    /** `dispatch_request`, with the dataset and the pool passed in as a
        store. */
    method DispatchRequest(req: Request, store: Store.QuadStore, selectors: seq<Store.Selector>)
      returns (resp: Response)
      requires Valid()
      modifies store
      ensures Served(store.Snapshot(), resp) == Dispatch(old(store.Snapshot()), Registered(), req, selectors)
    {
      if req.routingException {
        return RoutingError;
      }
      var ranked := resourceMap.EndpointRules(req.endpoint, req.viewArgs.Keys);
      assert ranked == Ranked(Registered(), req);
      if ranked.None? {
        return Ordinary;
      }
      var found := TryRules(ranked.value, req.viewArgs, store, selectors);
      match found
      case Failure(e) => resp := FormatRaised(e);
      case Success(None) => resp := RaisedNone;
      case Success(Some(f)) => resp := ResourceView(views, req, f);
    }
  }
}
