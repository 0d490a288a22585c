/** The Linked Data Platform side of ldp/resource.py: the fixed tree of
    LDP 1.0 resource types (Resource, RDF Source, Non-RDF Source, Container
    and its Basic, Direct and Indirect kinds, sections 4.2 to 5.5 of the W3C
    Linked Data Platform 1.0 recommendation), the upward closure of a list of
    types, the replacement of a resource graph's statements, the media types
    the derived PUT and GET rules negotiate, and the type list the resource
    adapter of ldp/binding.py reports. */
module LdpTypes {
  import opened Wrappers
  import opened Store
  import opened HeaderMatch
  import opened HeaderRule

  const Resource: string := "http://www.w3.org/ns/ldp#Resource"
  const RDFSource: string := "http://www.w3.org/ns/ldp#RDFSource"
  const NonRDFSource: string := "http://www.w3.org/ns/ldp#NonRDFSource"
  const Container: string := "http://www.w3.org/ns/ldp#Container"
  const BasicContainer: string := "http://www.w3.org/ns/ldp#BasicContainer"
  const DirectContainer: string := "http://www.w3.org/ns/ldp#DirectContainer"
  const IndirectContainer: string := "http://www.w3.org/ns/ldp#IndirectContainer"

  /** `TYPES_LIST`, in the order the hierarchy is built. */
  const TypesList: seq<string> :=
    [Resource, RDFSource, NonRDFSource, Container, BasicContainer, DirectContainer, IndirectContainer]

  /** The tree `TYPES`: each type other than the root mapped to its parent. */
  const Parent: map<string, string> := map[
    RDFSource := Resource,
    NonRDFSource := Resource,
    Container := RDFSource,
    BasicContainer := Container,
    DirectContainer := Container,
    IndirectContainer := Container]

  /** How far each type sits below the root. */
  const Rank: map<string, nat> := map[
    Resource := 0,
    RDFSource := 1,
    NonRDFSource := 1,
    Container := 2,
    BasicContainer := 3,
    DirectContainer := 3,
    IndirectContainer := 3]

  /** A type tree as treelib holds it: its nodes in creation order, the
      parent of every node but the root, and a rank that falls from a node
      to its parent (what makes it a tree). */
  datatype Hierarchy<T> = Hierarchy(nodes: seq<T>, parent: map<T, T>, rank: map<T, nat>)

  predicate IsTree<T>(h: Hierarchy<T>)
  {
    && (forall t :: t in h.nodes ==> t in h.rank)
    && (forall t :: t in h.parent ==> t in h.nodes && h.parent[t] in h.nodes && h.rank[h.parent[t]] < h.rank[t])
  }

  /** `TYPES`, the default `hierarchy`. */
  const Types: Hierarchy<string> := Hierarchy(TypesList, Parent, Rank)

  /** `hierarchy.rsearch(t)`: the node itself, then each ancestor up to a root. */
  function Rsearch<T>(h: Hierarchy<T>, t: T): (c: seq<T>)
    requires IsTree(h) && t in h.nodes
    ensures c != [] && c[0] == t && c[|c| - 1] !in h.parent
    ensures forall i :: 0 <= i < |c| ==> c[i] in h.nodes
    ensures forall i :: 0 <= i < |c| - 1 ==> c[i] in h.parent && h.parent[c[i]] == c[i + 1]
    decreases h.rank[t]
  {
    if t in h.parent then [t] + Rsearch(h, h.parent[t]) else [t]
  }

  /** Ranks fall strictly along a chain, so no node repeats in it. */
  lemma {:induction false} RsearchFalls<T>(h: Hierarchy<T>, t: T)
    requires IsTree(h) && t in h.nodes
    ensures forall i, j :: 0 <= i < j < |Rsearch(h, t)| ==> h.rank[Rsearch(h, t)[i]] > h.rank[Rsearch(h, t)[j]]
    decreases h.rank[t]
  {
    if t in h.parent {
      var up := Rsearch(h, h.parent[t]);
      RsearchFalls(h, h.parent[t]);
      var c := Rsearch(h, t);
      assert c == [t] + up;
      forall i, j | 0 <= i < j < |c|
        ensures h.rank[c[i]] > h.rank[c[j]]
      {
        assert c[j] == up[j - 1];
        if i > 0 {
          assert c[i] == up[i - 1];
        } else if j > 1 {
          assert h.rank[up[0]] > h.rank[up[j - 1]];
        }
      }
    }
  }

  lemma TypesIsTree()
    ensures IsTree(Types)
  {
    forall t | t in TypesList
      ensures t in Rank
    {
    }
    forall t | t in Parent
      ensures t in TypesList && Parent[t] in TypesList && Rank[Parent[t]] < Rank[t]
    {
      ParentRanked(t);
    }
  }

  lemma ParentRanked(t: string)
    requires t in Parent
    ensures t in TypesList && Parent[t] in TypesList && t in Rank && Parent[t] in Rank && Rank[Parent[t]] < Rank[t]
  {
    if t == RDFSource || t == NonRDFSource {
      assert Parent[t] == Resource;
    } else if t == Container {
      assert Parent[t] == RDFSource;
    } else {
      assert t == BasicContainer || t == DirectContainer || t == IndirectContainer;
      assert Parent[t] == Container;
    }
  }

  lemma TypesDistinct()
    ensures forall i, j :: 0 <= i < j < |TypesList| ==> TypesList[i] != TypesList[j]
  {
  }

  lemma ResourceIsRoot()
    ensures Resource !in Parent
    ensures forall t :: t in Parent <==> t in TypesList && t != Resource
  {
  }

  /** The chain above a listed type ends at Resource and repeats no type. */
  lemma ChainToResource(t: string)
    requires t in TypesList
    ensures IsTree(Types)
    ensures Rsearch(Types, t)[|Rsearch(Types, t)| - 1] == Resource
    ensures forall i, j :: 0 <= i < j < |Rsearch(Types, t)| ==> Rsearch(Types, t)[i] != Rsearch(Types, t)[j]
  {
    TypesIsTree();
    ResourceIsRoot();
    RsearchFalls(Types, t);
  }

  /** `TYPES` is the LDP tree: the seven listed types are distinct and
      Resource is the only type without a parent (`ChainToResource` gives
      the chains). */
  lemma TypeTree()
    ensures forall i, j :: 0 <= i < j < |TypesList| ==> TypesList[i] != TypesList[j]
    ensures IsTree(Types) && Resource !in Parent
    ensures forall t :: t in Parent <==> t in TypesList && t != Resource
  {
    TypesIsTree();
    TypesDistinct();
    ResourceIsRoot();
  }

  // ---------------------------------------------------------------------
  // implied_types
  // ---------------------------------------------------------------------

  /** The inner loop over `rsearch`: the types of `chain` that are neither
      given explicitly nor yielded already, each added to `implicit` as it is
      yielded. */
  function Fresh<T(==)>(chain: seq<T>, all: seq<T>, implicit: seq<T>): seq<T>
    decreases |chain|
  {
    if chain == [] then []
    else if chain[0] !in all && chain[0] !in implicit then [chain[0]] + Fresh(chain[1..], all, implicit + [chain[0]])
    else Fresh(chain[1..], all, implicit)
  }

  /** What `implied_types(*all, hierarchy=h)` yields once `rest` is left to
      visit and the types in `implicit` have been yielded as implied. */
  function Walk<T(==)>(h: Hierarchy<T>, all: seq<T>, rest: seq<T>, implicit: seq<T>): seq<T>
    requires IsTree(h)
    decreases |rest|
  {
    if rest == [] then []
    else if rest[0] !in h.nodes then Walk(h, all, rest[1..], implicit)
    else
      var novel := Fresh(Rsearch(h, rest[0]), all, implicit);
      [rest[0]] + novel + Walk(h, all, rest[1..], implicit + novel)
  }

  function Implied<T(==)>(h: Hierarchy<T>, explicit: seq<T>): seq<T>
    requires IsTree(h)
  {
    Walk(h, explicit, explicit, [])
  }

  /** `implied_types(*explicit, hierarchy=h)`: every explicit type the tree
      contains, each followed by those of its ancestors not given explicitly
      and not yielded yet. */
  method ImpliedTypes<T(==)>(h: Hierarchy<T>, explicit: seq<T>) returns (out: seq<T>)
    requires IsTree(h)
    ensures out == Implied(h, explicit)
  {
    var implicit: seq<T> := [];
    out := [];
    var i := 0;
    while i < |explicit|
      invariant 0 <= i <= |explicit|
      invariant out + Walk(h, explicit, explicit[i..], implicit) == Implied(h, explicit)
    {
      var e := explicit[i];
      WalkStep(h, explicit, explicit[i..], implicit);
      assert explicit[i..][0] == e && explicit[i..][1..] == explicit[i + 1..];
      if e in h.nodes {
        var novel := Ancestors(h, e, explicit, implicit);
        out := out + [e] + novel;
        implicit := implicit + novel;
      }
      i := i + 1;
    }
  }

  /** One step of the outer loop of `implied_types`, in the terms the loop
      keeps: what is yielded for the next explicit type, then the rest. */
  lemma WalkStep<T>(h: Hierarchy<T>, all: seq<T>, rest: seq<T>, implicit: seq<T>)
    requires IsTree(h) && rest != []
    ensures forall out: seq<T> ::
              out + Walk(h, all, rest, implicit)
              == if rest[0] in h.nodes then
                   var novel := Fresh(Rsearch(h, rest[0]), all, implicit);
                   (out + [rest[0]] + novel) + Walk(h, all, rest[1..], implicit + novel)
                 else out + Walk(h, all, rest[1..], implicit)
  {
  }

  /** The inner loop for one explicit type the tree contains. */
  method Ancestors<T(==)>(h: Hierarchy<T>, e: T, explicit: seq<T>, implicit0: seq<T>) returns (novel: seq<T>)
    requires IsTree(h) && e in h.nodes
    ensures novel == Fresh(Rsearch(h, e), explicit, implicit0)
  {
    var chain := Rsearch(h, e);
    var implicit := implicit0;
    novel := [];
    var j := 0;
    while j < |chain|
      invariant 0 <= j <= |chain|
      invariant implicit == implicit0 + novel
      invariant novel + Fresh(chain[j..], explicit, implicit) == Fresh(chain, explicit, implicit0)
    {
      var c := chain[j];
      assert chain[j..][0] == c && chain[j..][1..] == chain[j + 1..];
      if c !in explicit && c !in implicit {
        novel := novel + [c];
        implicit := implicit + [c];
      }
      j := j + 1;
    }
  }

  lemma {:induction false} FreshMembers<T>(chain: seq<T>, all: seq<T>, implicit: seq<T>)
    ensures forall t :: t in Fresh(chain, all, implicit) <==> t in chain && t !in all && t !in implicit
    ensures forall t :: multiset(Fresh(chain, all, implicit))[t] <= 1
    decreases |chain|
  {
    if chain != [] {
      if chain[0] !in all && chain[0] !in implicit {
        FreshMembers(chain[1..], all, implicit + [chain[0]]);
      } else {
        FreshMembers(chain[1..], all, implicit);
        forall t | t in chain && t !in all && t !in implicit
          ensures t in chain[1..]
        {
          assert t != chain[0];
        }
      }
    }
  }

  /** Which types the part of the walk still to come yields. */
  lemma {:induction false} WalkMembers<T>(h: Hierarchy<T>, all: seq<T>, rest: seq<T>, implicit: seq<T>, t: T)
    requires IsTree(h)
    requires forall x :: x in rest ==> x in all
    ensures t in Walk(h, all, rest, implicit) <==>
              (t in h.nodes && t in rest) ||
              (t !in all && t !in implicit && exists e :: e in rest && e in h.nodes && t in Rsearch(h, e))
    decreases |rest|
  {
    if rest != [] {
      var e := rest[0];
      assert rest == [e] + rest[1..];
      if e !in h.nodes {
        WalkMembers(h, all, rest[1..], implicit, t);
      } else {
        var novel := Fresh(Rsearch(h, e), all, implicit);
        FreshMembers(Rsearch(h, e), all, implicit);
        WalkMembers(h, all, rest[1..], implicit + novel, t);
        if t !in all && t !in implicit && t !in novel {
          if exists e' :: e' in rest && e' in h.nodes && t in Rsearch(h, e') {
            var e' :| e' in rest && e' in h.nodes && t in Rsearch(h, e');
            assert e' != e;
            assert e' in rest[1..];
          }
        }
      }
    }
  }

  /** How often the part of the walk still to come yields an explicit type:
      once per remaining occurrence when the tree knows it, otherwise never. */
  lemma {:induction false} WalkCounts<T>(h: Hierarchy<T>, all: seq<T>, rest: seq<T>, implicit: seq<T>, t: T)
    requires IsTree(h)
    requires forall x :: x in rest ==> x in all
    requires t in all
    ensures multiset(Walk(h, all, rest, implicit))[t] == if t in h.nodes then multiset(rest)[t] else 0
    decreases |rest|
  {
    if rest != [] {
      var e := rest[0];
      assert rest == [e] + rest[1..];
      if e !in h.nodes {
        WalkCounts(h, all, rest[1..], implicit, t);
        if t in h.nodes {
          assert t != e;
        }
      } else {
        var novel := Fresh(Rsearch(h, e), all, implicit);
        FreshMembers(Rsearch(h, e), all, implicit);
        assert multiset(novel)[t] == 0;
        WalkCounts(h, all, rest[1..], implicit + novel, t);
        var w := Walk(h, all, rest[1..], implicit + novel);
        assert Walk(h, all, rest, implicit) == [e] + novel + w;
        assert multiset([e] + novel + w)[t] == multiset([e])[t] + multiset(novel)[t] + multiset(w)[t];
      }
    }
  }

  /** An implied type that is not explicit is yielded at most once, and not
      at all once it has been yielded. */
  lemma {:induction false} WalkOnce<T>(h: Hierarchy<T>, all: seq<T>, rest: seq<T>, implicit: seq<T>, t: T)
    requires IsTree(h)
    requires forall x :: x in rest ==> x in all
    requires t !in all
    ensures multiset(Walk(h, all, rest, implicit))[t] <= 1
    ensures t in implicit ==> multiset(Walk(h, all, rest, implicit))[t] == 0
    decreases |rest|
  {
    if rest != [] {
      var e := rest[0];
      assert e in all && e != t;
      if e !in h.nodes {
        WalkOnce(h, all, rest[1..], implicit, t);
      } else {
        var novel := Fresh(Rsearch(h, e), all, implicit);
        FreshMembers(Rsearch(h, e), all, implicit);
        WalkOnce(h, all, rest[1..], implicit + novel, t);
        var w := Walk(h, all, rest[1..], implicit + novel);
        assert Walk(h, all, rest, implicit) == [e] + novel + w;
        assert multiset([e] + novel + w)[t] == multiset([e])[t] + multiset(novel)[t] + multiset(w)[t];
        if t in novel {
          assert t in implicit + novel;
        }
      }
    }
  }

  /** The closure is exact: `implied_types` yields precisely the explicit
      types the tree contains and their ancestors; each such explicit type as
      often as it is given (one the tree lacks never); and every other type
      at most once. */
  lemma ImpliedMeaning<T>(h: Hierarchy<T>, explicit: seq<T>, t: T)
    requires IsTree(h)
    ensures var r := Implied(h, explicit);
            && (t in r <==> exists e :: e in explicit && e in h.nodes && t in Rsearch(h, e))
            && (t in explicit ==> multiset(r)[t] == if t in h.nodes then multiset(explicit)[t] else 0)
            && (t !in explicit ==> multiset(r)[t] <= 1)
  {
    WalkMembers(h, explicit, explicit, [], t);
    if t in explicit {
      WalkCounts(h, explicit, explicit, [], t);
    } else {
      WalkOnce(h, explicit, explicit, [], t);
    }
    if t in explicit && t in h.nodes {
      assert Rsearch(h, t)[0] == t;
    }
    if t in Implied(h, explicit) && t !in explicit {
      var e :| e in explicit && e in h.nodes && t in Rsearch(h, e);
    }
  }

  lemma RsearchResource()
    ensures IsTree(Types) && Rsearch(Types, Resource) == [Resource]
  {
    TypesIsTree();
    ResourceIsRoot();
  }

  lemma RsearchRDFSource()
    ensures IsTree(Types) && Rsearch(Types, RDFSource) == [RDFSource, Resource]
  {
    RsearchResource();
    assert Parent[RDFSource] == Resource;
  }

  lemma RsearchContainer()
    ensures IsTree(Types) && Rsearch(Types, Container) == [Container, RDFSource, Resource]
  {
    RsearchRDFSource();
    assert Parent[Container] == RDFSource;
  }

  lemma RsearchBasicContainer()
    ensures IsTree(Types) && Rsearch(Types, BasicContainer) == [BasicContainer, Container, RDFSource, Resource]
  {
    RsearchContainer();
    assert Parent[BasicContainer] == Container;
  }

  /** Every ancestor of BasicContainer is new when it alone is given. */
  lemma FreshAboveBasicContainer()
    ensures Fresh([BasicContainer, Container, RDFSource, Resource], [BasicContainer], [])
         == [Container, RDFSource, Resource]
  {
    var all := [BasicContainer];
    TypesDistinct();
    assert Fresh([Resource], all, [Container, RDFSource]) == [Resource] by {
      assert Resource !in all && Resource !in [Container, RDFSource];
      assert [Resource][1..] == [];
    }
    assert Fresh([RDFSource, Resource], all, [Container]) == [RDFSource, Resource] by {
      assert RDFSource !in all && RDFSource !in [Container];
      assert [RDFSource, Resource][1..] == [Resource];
      assert [Container] + [RDFSource] == [Container, RDFSource];
    }
    assert Fresh([Container, RDFSource, Resource], all, []) == [Container, RDFSource, Resource] by {
      assert Container !in all;
      assert [Container, RDFSource, Resource][1..] == [RDFSource, Resource];
      assert [] + [Container] == [Container];
    }
    assert [BasicContainer, Container, RDFSource, Resource][1..] == [Container, RDFSource, Resource];
  }

  /** `implied_types(BasicContainer)` is BasicContainer, Container, RDF Source
      and Resource, in that order. */
  lemma ImpliedBasicContainer()
    ensures IsTree(Types)
    ensures Implied(Types, [BasicContainer]) == [BasicContainer, Container, RDFSource, Resource]
  {
    RsearchBasicContainer();
    FreshAboveBasicContainer();
    var all := [BasicContainer];
    var above := [Container, RDFSource, Resource];
    assert BasicContainer in Types.nodes;
    assert all[0] == BasicContainer && all[1..] == [];
    assert Walk(Types, all, all, []) == [BasicContainer] + above + Walk(Types, all, [], above);
    assert Walk(Types, all, [], above) == [];
  }

  // ---------------------------------------------------------------------
  // replace_resource
  // ---------------------------------------------------------------------

  /** A resource graph: a mutable set of statements. */
  class Graph {
    var triples: set<Triple>

    constructor (triples: set<Triple>)
      ensures this.triples == triples
    {
      this.triples := triples;
    }

    method Add(t: Triple)
      modifies this
      ensures triples == old(triples) + {t}
    {
      triples := triples + {t};
    }

    method Remove(t: Triple)
      modifies this
      ensures triples == old(triples) - {t}
    {
      triples := triples - {t};
    }
  }

  /** `replace_resource`: remove what the new statements lack, then add
      what the graph lacks; statements in both are neither removed nor added
      again.  `source` is the parsed request body. */
  method ReplaceResource(g: Graph, source: set<Triple>)
    returns (ghost removed: set<Triple>, ghost added: set<Triple>)
    modifies g
    ensures g.triples == source
    ensures removed == old(g.triples) - source && added == source - old(g.triples)
    ensures removed * source == {} && added * old(g.triples) == {}
  {
    var stated := g.triples;
    removed := stated - source;
    RemoveEach(g, stated - source);
    added := source - stated;
    AddEach(g, source - stated);
  }

  /** The first loop of `replace_resource`: one `remove` per statement. */
  method RemoveEach(g: Graph, drop: set<Triple>)
    modifies g
    ensures g.triples == old(g.triples) - drop
  {
    var todo := drop;
    while todo != {}
      invariant todo <= drop
      invariant g.triples == old(g.triples) - (drop - todo)
      decreases |todo|
    {
      var t :| t in todo;
      g.Remove(t);
      todo := todo - {t};
    }
  }

  /** The second loop of `replace_resource`: one `add` per statement. */
  method AddEach(g: Graph, put: set<Triple>)
    modifies g
    ensures g.triples == old(g.triples) + put
  {
    var todo := put;
    while todo != {}
      invariant todo <= put
      invariant g.triples == old(g.triples) + (put - todo)
      decreases |todo|
    {
      var t :| t in todo;
      g.Add(t);
      todo := todo - {t};
    }
  }

  // ---------------------------------------------------------------------
  // Media types and the derived PUT / GET rules
  // ---------------------------------------------------------------------

  /** `MIME_FORMAT`: the media types a resource is read and written in, and
      the parser / serializer format of each. */
  const MimeFormat: map<string, string> := map["text/turtle" := "turtle", "application/ld+json" := "jsonld"]

  /** The items of `any("application/ld+json","text/turtle")`. */
  const MimeItems: seq<string> := ["application/ld+json", "text/turtle"]

  /** The header text of the derived rules, and its parsed form: one
      `mimetype` variable with the `any` converter. */
  const MimeHeader: string := "<any(\"application/ld+json\",\"text/turtle\"):mimetype>"
  const MimeParts: seq<HPart> := [Var("mimetype", AnyConv(MimeItems))]

  /** The derived rules' header pattern admits exactly the media types
      `MIME_FORMAT` knows, capturing the whole value as `mimetype`, so the
      `MIME_FORMAT[mimetype]` lookup of the PUT view cannot fail. */
  lemma MimeHeaderMatch(v: string)
    ensures Match(PatternOf(MimeParts), v) == if v in MimeFormat then Some([("mimetype", v)]) else None
    ensures Match(PatternOf(MimeParts), v).Some? ==> v in MimeFormat && ToPython(AnyConv(MimeItems), v) == Some(Values.Text(v))
  {
    var g := Group("mimetype", AnyConv(MimeItems));
    assert PatternOf(MimeParts) == [g] by {
      assert MimeParts[..0] == [];
    }
    SingleItem(g, v);
    assert v in MimeFormat <==> v in MimeItems;
  }

  /** The rule a derived rule hangs off: its rule text and endpoint. */
  datatype ParentRule = ParentRule(path: string, endpoint: string)

  datatype LdpView = LdpPut | LdpGet

  /** The `((rule, endpoint, view), options)` tuple a builder yields. */
  datatype Derived = Derived(rule: RuleText, endpoint: string, view: LdpView, methods: seq<string>, parent: ParentRule)

  /** `build_put_rule`: one rule on the parent's path, constrained on
      `Content-Type`, for `PUT`, under the endpoint `<parent>.ldp.put`. */
  function BuildPutRule(parent: ParentRule): (r: seq<Derived>)
    ensures |r| == 1
    ensures r[0].rule.path == parent.path && r[0].rule.headers == Some([("Content-Type", MimeHeader)])
    ensures r[0].endpoint == parent.endpoint + ".ldp.put" && r[0].endpoint != parent.endpoint
    ensures r[0].view == LdpPut && r[0].methods == ["PUT"] && r[0].parent == parent
  {
    [Derived(RuleText(parent.path, Some([("Content-Type", MimeHeader)])), parent.endpoint + ".ldp.put",
             LdpPut, ["PUT"], parent)]
  }

  /** `build_get_rule`: one rule on the parent's path, constrained on
      `Accept`, for `GET`, under the endpoint `<parent>.ldp.get`. */
  function BuildGetRule(parent: ParentRule): (r: seq<Derived>)
    ensures |r| == 1
    ensures r[0].rule.path == parent.path && r[0].rule.headers == Some([("Accept", MimeHeader)])
    ensures r[0].endpoint == parent.endpoint + ".ldp.get" && r[0].endpoint != parent.endpoint
    ensures r[0].view == LdpGet && r[0].methods == ["GET"] && r[0].parent == parent
  {
    [Derived(RuleText(parent.path, Some([("Accept", MimeHeader)])), parent.endpoint + ".ldp.get",
             LdpGet, ["GET"], parent)]
  }

  /** The two builders of one parent give different endpoints, so both can
      be registered side by side. */
  lemma DerivedEndpointsDiffer(parent: ParentRule)
    ensures BuildPutRule(parent)[0].endpoint != BuildGetRule(parent)[0].endpoint
  {
    var n := |parent.endpoint|;
    assert BuildPutRule(parent)[0].endpoint[n + 5] == 'p';
    assert BuildGetRule(parent)[0].endpoint[n + 5] == 'g';
  }

  // ---------------------------------------------------------------------
  // ResourceAppAdapter.ldp_types
  // ---------------------------------------------------------------------

  /** `ldp_types` of the adapter: the resource's `rdf:type` values that
      are LDP types, the binding's declared types and Resource, as a set.
      `stated` are the `rdf:type` objects of the resource in the dataset. */
  function AdapterTypes(stated: seq<string>, declared: seq<string>): (r: set<string>)
    ensures Resource in r
    ensures forall t :: t in declared ==> t in r
    ensures forall t :: t in stated && t in TypesList ==> t in r
    ensures forall t :: t in r && t !in declared && t != Resource ==> t in stated && t in TypesList
  {
    (set t | t in stated && t in TypesList) + (set t | t in declared) + {Resource}
  }
}
