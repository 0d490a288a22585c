/** `BindableRule` (ldp/rule.py): a header-aware route rule that, once it
    matches, adds to the match the identifier of every resource variable it
    carries (or its parent carries), computed from the matched values. */
module BindableRules {
  import opened Wrappers
  import opened Values
  import opened RuleSyntax
  import opened UriTemplate
  import opened Bindings
  import opened HeaderRule
  import Store

  /** Every resource variable's template can be filled from the match. */
  predicate AllFill(m: map<string, Value>, rvars: map<string, Binding>)
  {
    forall v :: v in rvars ==> Uriref(rvars[v].rule, m).Success?
  }

  /** The identifiers the resource variables name, one per variable. */
  function Refs(m: map<string, Value>, rvars: map<string, Binding>): (rv: map<string, Value>)
    requires AllFill(m, rvars)
  {
    map v | v in rvars :: Ref(Uriref(rvars[v].rule, m).value)
  }

  /** The identifiers can all be computed exactly when the match supplies
      every argument of every resource variable's binding; each is then the
      binding's template filled with the matched values, and the merged match
      keeps every path value not shadowed by a resource variable. */
  lemma RefsMeaning(m: map<string, Value>, rvars: map<string, Binding>)
    ensures AllFill(m, rvars) <==> forall v :: v in rvars ==> ArgumentsOf(rvars[v]) <= m.Keys
    ensures AllFill(m, rvars) ==>
              var merged := m + Refs(m, rvars);
              && merged.Keys == m.Keys + rvars.Keys
              && (forall v :: v in rvars ==> merged[v] == Ref(Fill(RuleParts(rvars[v].rule), m)))
              && (forall k :: k in m && k !in rvars ==> merged[k] == m[k])
  {
    forall v | v in rvars
      ensures Uriref(rvars[v].rule, m).Success? <==> ArgumentsOf(rvars[v]) <= m.Keys
      ensures Uriref(rvars[v].rule, m).Success? ==> Uriref(rvars[v].rule, m).value == Fill(RuleParts(rvars[v].rule), m)
    {
      BindingFills(rvars[v], m);
    }
  }

  /** The loop of `BindableRule.match`: one identifier per resource variable,
      from the match as it stood before any was added; a template that cannot
      be filled raises its formatting error. */
  method ResourceRefs(m: map<string, Value>, rvars: map<string, Binding>)
    returns (r: Result<map<string, Value>, FormatError>)
    ensures r.Failure? <==> !AllFill(m, rvars)
    ensures r.Success? ==> AllFill(m, rvars) && r.value == m + Refs(m, rvars)
  {
    var rv: map<string, Value> := map[];
    var todo := rvars.Keys;
    while todo != {}
      invariant todo <= rvars.Keys
      invariant rv.Keys == rvars.Keys - todo
      invariant forall v :: v in rv ==> Uriref(rvars[v].rule, m).Success? && rv[v] == Ref(Uriref(rvars[v].rule, m).value)
      decreases |todo|
    {
      var v :| v in todo;
      match Uriref(rvars[v].rule, m) {
        case Failure(e) =>
          return Failure(e);
        case Success(iri) =>
          rv := rv[v := Ref(iri)];
      }
      todo := todo - {v};
    }
    assert rv == Refs(m, rvars);
    r := Success(m + rv);
  }

  /** A bindable rule: its header-rule part, an optional parent whose
      resource variables it uses instead of its own, the home context of its
      resources, its quad selectors, and its resource variables. */
  class BindableRule {
    const base: HeadersRule
    const parent: BindableRule?
    const context: Store.Context
    const selectors: seq<Store.Selector>
    var resourceVars: map<string, Binding>

    /** `BindableRule(..., parent=..., context=..., selectors=...)`: no
        resource variables yet. */
    constructor (base: HeadersRule, parent: BindableRule?, context: Store.Context, selectors: seq<Store.Selector>)
      ensures this.base == base && this.parent == parent && this.context == context
      ensures this.selectors == selectors && resourceVars == map[]
    {
      this.base := base;
      this.parent := parent;
      this.context := context;
      this.selectors := selectors;
      resourceVars := map[];
    }

    /** The resource variables `match` uses: the parent's when there is one. */
    function VarsInUse(): (rvars: map<string, Binding>)
      reads this, parent
      ensures parent == null ==> rvars == resourceVars
      ensures parent != null ==> rvars == parent.resourceVars
    {
      if parent != null then parent.resourceVars else resourceVars
    }

    /** `match`: the header rule's match, and then, when it matched, the
        identifier of every resource variable merged into it. */
    method Match(pathMatch: Option<map<string, Value>>, request: Option<map<string, string>>)
      returns (r: Result<Option<map<string, Value>>, FormatError>)
      requires base.Valid()
      modifies base
      ensures base.Valid()
      ensures var hm := RuleMatch(base.declared.Some?, base.patterns, base.converters, base.defaults, pathMatch, request);
              && (hm.None? ==> r == Success(None))
              && (hm.Some? ==> (r.Failure? <==> !AllFill(hm.value, VarsInUse())))
              && (hm.Some? && r.Success? ==>
                    AllFill(hm.value, VarsInUse()) && r.value == Some(hm.value + Refs(hm.value, VarsInUse())))
    {
      var hm := base.Match(pathMatch, request);
      if hm.None? {
        return Success(None);
      }
      var rvars := if parent != null then parent.resourceVars else resourceVars;
      var merged := ResourceRefs(hm.value, rvars);
      match merged {
        case Failure(e) =>
          r := Failure(e);
        case Success(m) =>
          r := Success(Some(m));
      }
    }
  }
}
