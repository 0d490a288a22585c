/** Identifier bindings and the table that holds them (`URIRefBinding` and
    `ResourceMap`, ldp/binding.py).  A binding ties an endpoint's view argument
    to the identifier its template produces; the table keeps the bindings in
    registration order, globally and per endpoint, and ranks an endpoint's
    bindings against the view arguments of a request. */
module Bindings {
  import opened Wrappers
  import opened Values
  import opened RuleSyntax
  import opened UriTemplate
  import Store
  import opened Ranking

  /** `URIRefBinding(rule, varname, endpoint, context, map, types=...)`. */
  datatype Binding = Binding(rule: string, varname: string, endpoint: string,
                             context: Store.Context, types: seq<string>)

  /** `URIRefBinding.arguments`: the variable names of the template. */
  function ArgumentsOf(b: Binding): set<string>
  {
    Arguments(RuleParts(b.rule))
  }

  /** The bindings of one endpoint, in registration order. */
  function OfEndpoint(rules: seq<Binding>, e: string): (r: seq<Binding>)
    ensures forall b :: b in r <==> b in rules && b.endpoint == e
    ensures |r| <= |rules|
  {
    if rules == [] then []
    else
      var last := rules[|rules| - 1];
      OfEndpoint(rules[..|rules| - 1], e) + (if last.endpoint == e then [last] else [])
  }

  lemma OfEndpointAppend(rules: seq<Binding>, b: Binding, e: string)
    ensures OfEndpoint(rules + [b], e) == OfEndpoint(rules, e) + (if b.endpoint == e then [b] else [])
  {
    assert (rules + [b])[..|rules|] == rules;
  }

  lemma {:induction false} NoneOfEndpoint(rules: seq<Binding>, e: string)
    requires forall b :: b in rules ==> b.endpoint != e
    ensures OfEndpoint(rules, e) == []
  {
    if rules != [] {
      NoneOfEndpoint(rules[..|rules| - 1], e);
    }
  }

  /** `uriref(**args)` of a binding succeeds exactly when every argument of
      the binding is supplied, and then spells out its template. */
  lemma BindingFills(b: Binding, args: map<string, Value>)
    ensures Uriref(b.rule, args).Success? <==> ArgumentsOf(b) <= args.Keys
    ensures Uriref(b.rule, args).Success? ==> Uriref(b.rule, args).value == Fill(RuleParts(b.rule), args)
  {
    UrirefFills(b.rule, args);
    ArgumentsAreVariables(RuleParts(b.rule));
  }

  /** The same of the source's own `uriref`, for a binding whose template
      holds no brace in its literal text. */
  lemma BindingFillsAsWritten(b: Binding, args: map<string, Value>)
    requires BraceFree(RuleParts(b.rule))
    ensures UrirefAsWritten(b.rule, args).Success? <==> ArgumentsOf(b) <= args.Keys
    ensures UrirefAsWritten(b.rule, args).Success? ==>
              UrirefAsWritten(b.rule, args).value == Fill(RuleParts(b.rule), args)
  {
    UrirefAsWrittenAgrees(b.rule, args);
    BindingFills(b, args);
  }

  /** The per-endpoint index the table must agree with: every endpoint that has
      a binding, mapped to its bindings in registration order. */
  function Index(rules: seq<Binding>): map<string, seq<Binding>>
  {
    map e | e in (set b | b in rules :: b.endpoint) :: OfEndpoint(rules, e)
  }

  /** Appending a binding to the global list extends its endpoint's entry
      (creating it when missing, as `setdefault` does) and no other. */
  lemma IndexAdd(rules: seq<Binding>, b: Binding)
    ensures var m := Index(rules);
            Index(rules + [b]) == m[b.endpoint := (if b.endpoint in m then m[b.endpoint] else []) + [b]]
  {
    var m := Index(rules);
    var m' := Index(rules + [b]);
    var n := m[b.endpoint := (if b.endpoint in m then m[b.endpoint] else []) + [b]];
    forall e | e in m'
      ensures e in n && m'[e] == n[e]
    {
      OfEndpointAppend(rules, b, e);
      if e != b.endpoint {
        var w :| w in rules + [b] && w.endpoint == e;
        assert w in rules;
      } else if b.endpoint !in m {
        NoneOfEndpoint(rules, e);
      }
    }
    forall e | e in n
      ensures e in m'
    {
      if e != b.endpoint {
        var w :| w in rules && w.endpoint == e;
        assert w in rules + [b];
      } else {
        assert b in rules + [b];
      }
    }
  }

  // ---------------------------------------------------------------------
  // Ranking (`rules_with_suiteable_args`)
  // ---------------------------------------------------------------------

  /** The sort key: how many of the available names a binding leaves unused. */
  function Unused(args: set<string>, b: Binding): nat
  {
    |args - ArgumentsOf(b)|
  }

  function KeyOf(args: set<string>): Binding -> nat
  {
    b => Unused(args, b)
  }

  /** The bindings whose arguments are all available, in their given order. */
  function Suitable(args: set<string>, rules: seq<Binding>): (r: seq<Binding>)
    ensures forall b :: b in r <==> b in rules && ArgumentsOf(b) <= args
  {
    if rules == [] then []
    else (if ArgumentsOf(rules[0]) <= args then [rules[0]] else []) + Suitable(args, rules[1..])
  }

  /** `rules_with_suiteable_args`: the bindings whose arguments are all
      available, fewest unused names first, ties in their given order; `None`
      (the implicit return) when no binding qualifies. */
  function RulesWithSuitableArgs(args: set<string>, rules: seq<Binding>): (r: Option<seq<Binding>>)
    ensures r.Some? <==> exists b :: b in rules && ArgumentsOf(b) <= args
    ensures r.Some? ==> r.value != [] && multiset(r.value) == multiset(Suitable(args, rules))
    ensures r.Some? ==> forall b :: b in r.value <==> b in rules && ArgumentsOf(b) <= args
    ensures r.Some? ==> Sorted(KeyOf(args), r.value)
    ensures r.Some? ==> forall k: nat :: WithKey(KeyOf(args), r.value, k) == WithKey(KeyOf(args), Suitable(args, rules), k)
  {
    var candidates := Suitable(args, rules);
    var ranked := Sort(KeyOf(args), candidates);
    SortProperties(KeyOf(args), candidates);
    if |ranked| > 0 then
      SameMembers(ranked, candidates);
      Some(ranked)
    else
      None
  }

  lemma SameMembers(a: seq<Binding>, b: seq<Binding>)
    requires multiset(a) == multiset(b)
    ensures forall x :: x in a <==> x in b
  {
    forall x
      ensures x in a <==> x in b
    {
      assert x in a <==> x in multiset(a);
      assert x in b <==> x in multiset(b);
    }
  }

  /** A binding that uses every available name is ranked first when no other
      binding does. */
  lemma ExactFirst(args: set<string>, rules: seq<Binding>, b: Binding)
    requires b in rules && ArgumentsOf(b) == args
    requires forall i :: 0 <= i < |rules| && rules[i] != b ==> ArgumentsOf(rules[i]) != args
    ensures RulesWithSuitableArgs(args, rules).Some?
    ensures RulesWithSuitableArgs(args, rules).value[0] == b
  {
    var r := RulesWithSuitableArgs(args, rules).value;
    var key := KeyOf(args);
    assert b in r;
    var i :| 0 <= i < |r| && r[i] == b;
    assert key(b) == 0 by {
      assert args - ArgumentsOf(b) == {};
    }
    assert key(r[0]) <= key(r[i]);
    var first := r[0];
    assert first in rules && ArgumentsOf(first) <= args;
    assert |args - ArgumentsOf(first)| == 0;
    assert ArgumentsOf(first) == args by {
      assert args - ArgumentsOf(first) == {};
    }
    var j :| 0 <= j < |rules| && rules[j] == first;
  }

  // ---------------------------------------------------------------------
  // The table
  // ---------------------------------------------------------------------

  /** `ResourceMap`: the bindings in registration order, the same bindings
      grouped by endpoint, and the converter table (the defaults updated with
      the caller's). */
  class ResourceMap {
    var rules: seq<Binding>
    var byEndpoint: map<string, seq<Binding>>
    var converters: map<string, Converter>

    ghost predicate Valid()
      reads this
    {
      byEndpoint == Index(rules) && "default" in converters
    }

    /** `ResourceMap(rules, converters)`: every given binding is added in turn. */
    constructor (initial: seq<Binding>, extra: map<string, Converter>)
      ensures Valid() && rules == initial && converters == DefaultConverters + extra
    {
      rules := [];
      byEndpoint := map[];
      converters := DefaultConverters + extra;
      new;
      var i := 0;
      while i < |initial|
        invariant 0 <= i <= |initial|
        invariant Valid() && rules == initial[..i] && converters == DefaultConverters + extra
      {
        Add(initial[i]);
        assert initial[..i + 1] == initial[..i] + [initial[i]];
        i := i + 1;
      }
    }

    /** `add`: append to the global list and to the endpoint's list. */
    method Add(b: Binding)
      requires Valid()
      modifies this
      ensures Valid()
      ensures rules == old(rules) + [b] && converters == old(converters)
      ensures byEndpoint == old(byEndpoint)[b.endpoint :=
                (if b.endpoint in old(byEndpoint) then old(byEndpoint)[b.endpoint] else []) + [b]]
    {
      IndexAdd(rules, b);
      var entry := if b.endpoint in byEndpoint then byEndpoint[b.endpoint] else [];
      rules := rules + [b];
      byEndpoint := byEndpoint[b.endpoint := entry + [b]];
    }

    /** `get`: an endpoint's bindings in registration order, `None` for an
        endpoint with none. */
    function Get(e: string): (r: Option<seq<Binding>>)
      requires Valid()
      reads this
      ensures r.Some? <==> exists b :: b in rules && b.endpoint == e
      ensures r.Some? ==> r.value == OfEndpoint(rules, e) && r.value != []
    {
      if e in byEndpoint then
        var w :| w in rules && w.endpoint == e;
        assert w in OfEndpoint(rules, e);
        Some(byEndpoint[e])
      else None
    }

    /** `iter_rules`: all bindings, or one endpoint's; an endpoint without
        bindings raises `KeyError`. */
    function IterRules(e: Option<string>): (r: Result<seq<Binding>, string>)
      requires Valid()
      reads this
      ensures r.Failure? <==> e.Some? && forall b :: b in rules ==> b.endpoint != e.value
      ensures r.Success? && e.None? ==> r.value == rules
      ensures r.Success? && e.Some? ==> r.value == OfEndpoint(rules, e.value)
    {
      match e
      case None => Success(rules)
      case Some(name) =>
        if name in byEndpoint then Success(byEndpoint[name]) else Failure("KeyError")
    }

    /** `endpoint_rules`: `None` for an endpoint without bindings, otherwise
        the ranking of its bindings against the available argument names. */
    function EndpointRules(e: string, args: set<string>): (r: Option<seq<Binding>>)
      requires Valid()
      reads this
      ensures r.Some? <==> exists b :: b in rules && b.endpoint == e && ArgumentsOf(b) <= args
      ensures r == RulesWithSuitableArgs(args, OfEndpoint(rules, e))
    {
      match Get(e)
      case None =>
        NoneOfEndpoint(rules, e);
        None
      case Some(candidates) => RulesWithSuitableArgs(args, candidates)
    }
  }
}
