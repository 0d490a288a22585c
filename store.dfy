/** The statement store behind resource resolution: the dataset of named
    graphs, the pool of per-resource graphs, and `ResourceContextAdapter`
    (ldp/rule.py) / `ResourceAppAdapter` (ldp/binding.py), which move a
    resource's statements out of its home context into a pool graph of its
    own the first time it is asked for. */
module Store {
  import opened Wrappers

  datatype Triple = Triple(s: string, p: string, o: string)

  /** A statement together with the graph that holds it. */
  datatype Quad = Quad(triple: Triple, graph: string)

  /** Where a binding looks for a resource's statements: the aggregation of
      all graphs, the whole dataset, or one named graph. */
  datatype Context = Aggregation | Dataset | Graph(id: string)

  /** A quad selector: the user-supplied filters run before
      `remove_from_context`, which every adapter appends last. */
  type Selector = Quad -> bool

  /** The statements about `uri` in a context: `quads((uri, None, None, None))`
      of a dataset or of the aggregation, or the triples of one graph tagged
      with that graph's identifier. */
  function Candidates(data: set<Quad>, uri: string, ctx: Context): set<Quad>
  {
    set q | q in data && q.triple.s == uri && (ctx.Graph? ==> q.graph == ctx.id)
  }

  /** A quad passes the selector pipeline when no selector drops it. */
  predicate Passes(selectors: seq<Selector>, q: Quad)
  {
    selectors == [] || (selectors[0](q) && Passes(selectors[1..], q))
  }

  function Survivors(data: set<Quad>, uri: string, ctx: Context, selectors: seq<Selector>): set<Quad>
  {
    set q | q in Candidates(data, uri, ctx) && Passes(selectors, q)
  }

  function Triples(qs: set<Quad>): set<Triple>
  {
    set q | q in qs :: q.triple
  }

  /** The dataset and the pool of resource graphs. */
  datatype State = State(data: set<Quad>, pool: map<string, set<Triple>>)

  /** What `resource` returns (the statements of the resource graph, or
      `None`) and the store it leaves behind. */
  datatype Outcome = Outcome(state: State, found: Option<set<Triple>>)

  /** `resource`: a pooled identifier is answered from the pool; otherwise the
      pool graph is created, the selected statements move into it, and the
      answer is `None` when none moved (the empty pool graph stays). */
  function Resolve(st: State, uri: string, ctx: Context, selectors: seq<Selector>): Outcome
  {
    if uri in st.pool then Outcome(st, Some(st.pool[uri]))
    else
      var moved := Survivors(st.data, uri, ctx, selectors);
      Outcome(State(st.data - moved, st.pool[uri := Triples(moved)]),
              if moved == {} then None else Some(Triples(moved)))
  }

  /** `BindableRule.context`: the aggregation of all graphs cannot be the home
      context of a resource (`TypeError`). */
  function RuleContext(ctx: Context): (r: Result<Context, string>)
    ensures r.Success? <==> !ctx.Aggregation?
    ensures r.Success? ==> r.value == ctx
  {
    if ctx.Aggregation? then Failure("cant be resource context") else Success(ctx)
  }

  class QuadStore {
    var data: set<Quad>
    var pool: map<string, set<Triple>>

    constructor (data: set<Quad>, pool: map<string, set<Triple>>)
      ensures this.data == data && this.pool == pool
    {
      this.data := data;
      this.pool := pool;
    }

    function Snapshot(): State
      reads this
    {
      State(data, pool)
    }

    /** `resource`: the pool graph when the identifier is pooled, otherwise
        whatever `move_to_pool` returns. */
    method Resource(uri: string, ctx: Context, selectors: seq<Selector>) returns (found: Option<set<Triple>>)
      modifies this
      ensures Outcome(Snapshot(), found) == Resolve(old(Snapshot()), uri, ctx, selectors)
    {
      if uri in pool {
        found := Some(pool[uri]);
      } else {
        found := MoveToPool(uri, ctx, selectors);
      }
    }

    /** `move_to_pool`: create the pool graph, then one pass over the
        statements about `uri`, removing each selected one from its graph and
        adding it to the pool graph, and remembering whether any moved. */
    method MoveToPool(uri: string, ctx: Context, selectors: seq<Selector>) returns (found: Option<set<Triple>>)
      modifies this
      ensures var moved := Survivors(old(data), uri, ctx, selectors);
              && data == old(data) - moved
              && pool == old(pool)[uri := Triples(moved)]
              && found == if moved == {} then None else Some(Triples(moved))
    {
      ghost var start := data;
      pool := pool[uri := {}];
      ghost var pool0 := pool;
      var moved := false;
      var todo := Candidates(data, uri, ctx);
      ghost var sel: set<Quad> := {};
      SweepInit(start, pool0, uri, ctx, selectors);
      while todo != {}
        invariant Sweeping(start, pool0, uri, ctx, selectors, sel, todo, data, pool, moved)
        decreases |todo|
      {
        var q :| q in todo;
        SweepStep(start, pool0, uri, ctx, selectors, sel, todo, data, pool, moved, q);
        todo := todo - {q};
        if Passes(selectors, q) {
          sel := sel + {q};
          data := data - {q};
          pool := pool[uri := pool[uri] + {q.triple}];
          moved := true;
        }
      }
      SweepDone(start, pool0, old(pool), uri, ctx, selectors, sel, data, pool, moved);
      if moved {
        found := Some(pool[uri]);
      } else {
        found := None;
      }
    }
  }

  /** The invariant of the migration loop: `sel` holds the selected statements
      among those already visited, `todo` those not yet visited; the selected
      ones have left the dataset and their triples make up the pool graph. */
  ghost predicate Sweeping(start: set<Quad>, pool0: map<string, set<Triple>>, uri: string, ctx: Context,
                           selectors: seq<Selector>, sel: set<Quad>, todo: set<Quad>,
                           data: set<Quad>, pool: map<string, set<Triple>>, moved: bool)
  {
    && Progress(start, uri, ctx, selectors, sel, todo)
    && data == start - sel
    && Pooled(pool, pool0, uri, sel)
    && moved == (sel != {})
  }

  lemma SweepInit(start: set<Quad>, pool0: map<string, set<Triple>>, uri: string, ctx: Context,
                  selectors: seq<Selector>)
    requires uri in pool0 && pool0[uri] == {}
    ensures Sweeping(start, pool0, uri, ctx, selectors, {}, Candidates(start, uri, ctx), start, pool0, false)
  {
    ProgressInit(start, uri, ctx, selectors);
    PooledInit(pool0, uri);
  }

  lemma SweepStep(start: set<Quad>, pool0: map<string, set<Triple>>, uri: string, ctx: Context,
                  selectors: seq<Selector>, sel: set<Quad>, todo: set<Quad>,
                  data: set<Quad>, pool: map<string, set<Triple>>, moved: bool, q: Quad)
    requires Sweeping(start, pool0, uri, ctx, selectors, sel, todo, data, pool, moved) && q in todo
    ensures uri in pool
    ensures Passes(selectors, q) ==>
              Sweeping(start, pool0, uri, ctx, selectors, sel + {q}, todo - {q}, data - {q},
                       pool[uri := pool[uri] + {q.triple}], true)
    ensures !Passes(selectors, q) ==>
              Sweeping(start, pool0, uri, ctx, selectors, sel, todo - {q}, data, pool, moved)
  {
    ProgressStep(start, uri, ctx, selectors, sel, todo, q);
    PooledStep(pool, pool0, uri, sel, q);
    assert q in sel + {q};
  }

  lemma SweepDone(start: set<Quad>, pool0: map<string, set<Triple>>, pool1: map<string, set<Triple>>,
                  uri: string, ctx: Context, selectors: seq<Selector>, sel: set<Quad>,
                  data: set<Quad>, pool: map<string, set<Triple>>, moved: bool)
    requires Sweeping(start, pool0, uri, ctx, selectors, sel, {}, data, pool, moved)
    requires pool0 == pool1[uri := {}]
    ensures var m := Survivors(start, uri, ctx, selectors);
            && data == start - m
            && pool == pool1[uri := Triples(m)]
            && pool[uri] == Triples(m)
            && moved == (m != {})
  {
    ProgressDone(start, uri, ctx, selectors, sel, {});
    PooledDone(pool, pool0, pool1, uri, sel);
  }

  /** Bookkeeping of the migration loop: `sel` holds the selected statements
      among those already visited, `todo` those not yet visited. */
  ghost predicate Progress(start: set<Quad>, uri: string, ctx: Context, selectors: seq<Selector>,
                           sel: set<Quad>, todo: set<Quad>)
  {
    todo <= Candidates(start, uri, ctx) && sel == Survivors(start, uri, ctx, selectors) - todo
  }

  lemma ProgressInit(start: set<Quad>, uri: string, ctx: Context, selectors: seq<Selector>)
    ensures Progress(start, uri, ctx, selectors, {}, Candidates(start, uri, ctx))
  {
  }

  lemma ProgressStep(start: set<Quad>, uri: string, ctx: Context, selectors: seq<Selector>,
                     sel: set<Quad>, todo: set<Quad>, q: Quad)
    requires Progress(start, uri, ctx, selectors, sel, todo) && q in todo
    ensures Passes(selectors, q) ==> Progress(start, uri, ctx, selectors, sel + {q}, todo - {q})
    ensures !Passes(selectors, q) ==> Progress(start, uri, ctx, selectors, sel, todo - {q})
  {
  }

  lemma ProgressDone(start: set<Quad>, uri: string, ctx: Context, selectors: seq<Selector>,
                     sel: set<Quad>, todo: set<Quad>)
    requires Progress(start, uri, ctx, selectors, sel, todo) && todo == {}
    ensures sel == Survivors(start, uri, ctx, selectors)
  {
  }

  /** The pool graph of `uri` holds the triples of the selected statements. */
  ghost predicate Pooled(pool: map<string, set<Triple>>, pool0: map<string, set<Triple>>,
                         uri: string, sel: set<Quad>)
  {
    pool == pool0[uri := Triples(sel)]
  }

  lemma PooledInit(pool0: map<string, set<Triple>>, uri: string)
    requires uri in pool0 && pool0[uri] == {}
    ensures Pooled(pool0, pool0, uri, {})
  {
    assert Triples({}) == {};
  }

  lemma PooledStep(pool: map<string, set<Triple>>, pool0: map<string, set<Triple>>,
                   uri: string, sel: set<Quad>, q: Quad)
    requires Pooled(pool, pool0, uri, sel)
    ensures uri in pool
    ensures Pooled(pool[uri := pool[uri] + {q.triple}], pool0, uri, sel + {q})
  {
    TriplesAdd(sel, q);
    UpdateTwice(pool0, uri, Triples(sel), Triples(sel + {q}));
  }

  lemma PooledDone(pool: map<string, set<Triple>>, pool0: map<string, set<Triple>>,
                   pool1: map<string, set<Triple>>, uri: string, sel: set<Quad>)
    requires Pooled(pool, pool0, uri, sel) && pool0 == pool1[uri := {}]
    ensures pool == pool1[uri := Triples(sel)] && pool[uri] == Triples(sel)
  {
    UpdateTwice(pool1, uri, {}, Triples(sel));
  }

  lemma UpdateTwice<K, V>(m: map<K, V>, k: K, a: V, b: V)
    ensures m[k := a][k := b] == m[k := b]
  {
  }

  lemma TriplesAdd(qs: set<Quad>, q: Quad)
    ensures Triples(qs + {q}) == Triples(qs) + {q.triple}
  {
  }

  /** Migration: afterwards the identifier has a pool graph; exactly the
      statements about it in the context that pass the selectors have left the
      dataset and make up that graph; the answer is that graph when any moved
      and `None` otherwise; every other pool graph is kept. */
  lemma Migration(st: State, uri: string, ctx: Context, selectors: seq<Selector>, q: Quad)
    requires uri !in st.pool
    ensures var o := Resolve(st, uri, ctx, selectors);
            && uri in o.state.pool
            && (q in o.state.data <==>
                  q in st.data && !(q.triple.s == uri && (ctx.Graph? ==> q.graph == ctx.id)
                                    && Passes(selectors, q)))
            && (q.triple in o.state.pool[uri] <==>
                  exists g :: Quad(q.triple, g) in st.data && uri == q.triple.s
                              && (ctx.Graph? ==> g == ctx.id) && Passes(selectors, Quad(q.triple, g)))
            && (o.found.Some? <==> exists m :: m in Candidates(st.data, uri, ctx) && Passes(selectors, m))
            && (o.found.Some? ==> o.found.value == o.state.pool[uri])
            && (forall k :: k in st.pool ==> k in o.state.pool && o.state.pool[k] == st.pool[k])
  {
    var o := Resolve(st, uri, ctx, selectors);
    var moved := Survivors(st.data, uri, ctx, selectors);
    if q.triple in o.state.pool[uri] {
      var m :| m in moved && m.triple == q.triple;
      assert Quad(q.triple, m.graph) == m;
    }
    if o.found.None? {
      assert moved == {};
    } else {
      var m :| m in moved;
    }
  }

  /** Statements about other identifiers are never touched. */
  lemma OthersUntouched(st: State, uri: string, ctx: Context, selectors: seq<Selector>, q: Quad)
    requires q.triple.s != uri
    ensures q in Resolve(st, uri, ctx, selectors).state.data <==> q in st.data
  {
  }

  /** Without user selectors every statement about the identifier in its
      context leaves the dataset on the first lookup. */
  lemma DrainsContext(st: State, uri: string, ctx: Context, q: Quad)
    requires uri !in st.pool
    requires q.triple.s == uri && (ctx.Graph? ==> q.graph == ctx.id)
    ensures q !in Resolve(st, uri, ctx, []).state.data
  {
  }

  /** A second lookup finds the identifier pooled: it changes nothing and
      answers with the pool graph the first one left, which is empty when the
      first one found nothing. */
  lemma ResolveAgain(st: State, uri: string, ctx: Context, selectors: seq<Selector>)
    ensures var first := Resolve(st, uri, ctx, selectors);
            var second := Resolve(first.state, uri, ctx, selectors);
            && second.state == first.state
            && (first.found.Some? ==> second.found == first.found)
            && (first.found.None? ==> second.found == Some({}))
  {
    var moved := Survivors(st.data, uri, ctx, selectors);
    if uri !in st.pool && moved == {} {
      assert Triples(moved) == {};
    }
  }
}
