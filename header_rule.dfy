/** Routes constrained by request headers (`match_headers` and `HeadersRule`,
    ldp/rule.py).  A route declares, per header name, a pattern; on its first
    match attempt the route compiles every declared pattern once, and a
    request then matches only if it carries every declared header, every
    header value matches its pattern as a whole, and every captured value
    converts.  The converted values join the path's arguments. */
module HeaderRule {
  import opened Wrappers
  import opened Strings
  import opened Values
  import opened HeaderMatch

  /** `match_headers(path, **headers)`: a path rule that also carries header
      patterns, as text. */
  datatype RuleText = RuleText(path: string, headers: Option<seq<(string, string)>>)

  /** One piece of a declared header pattern, as werkzeug's `parse_rule`
      yields it with the placeholder's converter object already built: static
      text, or a variable with its converter. */
  datatype HPart = Static(text: string) | Var(name: string, conv: Conv)

  // ---------------------------------------------------------------------
  // Compilation (`compile_header_rule`)
  // ---------------------------------------------------------------------

  function PartItems(part: HPart): seq<Item>
  {
    match part
    case Static(text) => Glob(text)
    case Var(name, conv) => [Group(name, conv)]
  }

  /** The compiled pattern: each static text translated as a glob, each
      variable a named group. */
  function PatternOf(parts: seq<HPart>): seq<Item>
  {
    if parts == [] then [] else PatternOf(parts[..|parts| - 1]) + PartItems(parts[|parts| - 1])
  }

  lemma PatternOfTwo(a: HPart, b: HPart)
    ensures PatternOf([a, b]) == PartItems(a) + PartItems(b)
  {
    assert PatternOf([a]) == PartItems(a) by {
      assert [a][..0] == [];
      assert [] + PartItems(a) == PartItems(a);
    }
    assert [a, b][..1] == [a];
  }

  /** The variable names of a declared pattern. */
  function VarNames(parts: seq<HPart>): set<string>
  {
    set i | 0 <= i < |parts| && parts[i].Var? :: parts[i].name
  }

  /** The names of a compiled pattern's groups. */
  function GroupNames(p: seq<Item>): set<string>
  {
    set i | 0 <= i < |p| && p[i].Group? :: p[i].name
  }

  /** The groups of a compiled pattern are exactly its variables. */
  lemma {:induction false} PatternGroups(parts: seq<HPart>)
    ensures GroupNames(PatternOf(parts)) == VarNames(parts)
    decreases |parts|
  {
    if parts != [] {
      var init := parts[..|parts| - 1];
      var last := parts[|parts| - 1];
      PatternGroups(init);
      var a, b := PatternOf(init), PartItems(last);
      GroupNamesAppend(a, b);
      assert VarNames(parts) == VarNames(init) + (if last.Var? then {last.name} else {}) by {
        forall n | n in VarNames(parts)
          ensures n in VarNames(init) || (last.Var? && n == last.name)
        {
          var i :| 0 <= i < |parts| && parts[i].Var? && parts[i].name == n;
          if i < |parts| - 1 {
            assert init[i] == parts[i];
          }
        }
        forall n | n in VarNames(init)
          ensures n in VarNames(parts)
        {
          var i :| 0 <= i < |init| && init[i].Var? && init[i].name == n;
          assert parts[i] == init[i];
        }
      }
      if last.Var? {
        assert GroupNames(b) == {last.name} by {
          assert b[0] == Group(last.name, last.conv);
        }
      } else {
        assert GroupNames(b) == {};
      }
    }
  }

  lemma GroupNamesAppend(a: seq<Item>, b: seq<Item>)
    ensures GroupNames(a + b) == GroupNames(a) + GroupNames(b)
  {
    var ab := a + b;
    forall n | n in GroupNames(ab)
      ensures n in GroupNames(a) + GroupNames(b)
    {
      var i :| 0 <= i < |ab| && ab[i].Group? && ab[i].name == n;
      if i < |a| {
        assert a[i] == ab[i];
      } else {
        assert b[i - |a|] == ab[i];
      }
    }
    forall n | n in GroupNames(a)
      ensures n in GroupNames(ab)
    {
      var i :| 0 <= i < |a| && a[i].Group? && a[i].name == n;
      assert ab[i] == a[i];
    }
    forall n | n in GroupNames(b)
      ensures n in GroupNames(ab)
    {
      var i :| 0 <= i < |b| && b[i].Group? && b[i].name == n;
      assert ab[|a| + i] == b[i];
    }
  }

  /** The rule's compilation tables, which the path rule's own compilation
      started and each header pattern extends: `_trace`, `_converters`,
      `_weights` and `arguments`. */
  datatype Tables = Tables(trace: seq<(bool, string)>, converters: map<string, Conv>,
                           weights: seq<(int, int)>, arguments: set<string>)

  /** The weights of a static text: one `(0, -len(piece))` per non-empty
      `/`-separated piece. */
  function StaticWeights(pieces: seq<string>): seq<(int, int)>
  {
    if pieces == [] then []
    else
      var last := pieces[|pieces| - 1];
      StaticWeights(pieces[..|pieces| - 1]) + (if last != "" then [(0, -|last|)] else [])
  }

  function AddPart(t: Tables, part: HPart): Tables
  {
    match part
    case Static(text) =>
      t.(trace := t.trace + [(false, text)],
         weights := t.weights + StaticWeights(Split(text, '/')))
    case Var(name, conv) =>
      t.(trace := t.trace + [(true, name)],
         converters := t.converters[name := conv],
         weights := t.weights + [(1, Weight(conv))],
         arguments := t.arguments + {name})
  }

  function AddParts(t: Tables, parts: seq<HPart>): Tables
  {
    if parts == [] then t else AddPart(AddParts(t, parts[..|parts| - 1]), parts[|parts| - 1])
  }

  /** The tables after compiling one header pattern, bracketed in the trace
      by `(False, '|')` and `(False, '/')`. */
  function Compiled(t: Tables, parts: seq<HPart>): Tables
  {
    var u := AddParts(t.(trace := t.trace + [(false, "|")]), parts);
    u.(trace := u.trace + [(false, "/")])
  }

  /** The tables after compiling every declared header, in declaration order. */
  function CompileAll(t: Tables, headers: seq<(string, seq<HPart>)>): Tables
  {
    if headers == [] then t
    else Compiled(CompileAll(t, headers[..|headers| - 1]), headers[|headers| - 1].1)
  }

  /** The compiled patterns, keyed by header name in declaration order. */
  function Patterns(headers: seq<(string, seq<HPart>)>): (r: seq<(string, seq<Item>)>)
    ensures |r| == |headers|
    ensures forall i :: 0 <= i < |r| ==> r[i] == (headers[i].0, PatternOf(headers[i].1))
  {
    seq(|headers|, i requires 0 <= i < |headers| => (headers[i].0, PatternOf(headers[i].1)))
  }

  /** The variable names of every declared header. */
  function AllVarNames(headers: seq<(string, seq<HPart>)>): set<string>
  {
    if headers == [] then {}
    else AllVarNames(headers[..|headers| - 1]) + VarNames(headers[|headers| - 1].1)
  }

  /** Compiling a pattern adds exactly its variable names to `arguments`,
      gives each of them a converter, and leaves other converters alone. */
  lemma {:induction false} AddPartsEffect(t: Tables, parts: seq<HPart>)
    ensures AddParts(t, parts).arguments == t.arguments + VarNames(parts)
    ensures VarNames(parts) <= AddParts(t, parts).converters.Keys
    ensures forall n :: n in t.converters && n !in VarNames(parts) ==>
              n in AddParts(t, parts).converters && AddParts(t, parts).converters[n] == t.converters[n]
    ensures t.converters.Keys <= AddParts(t, parts).converters.Keys
    decreases |parts|
  {
    if parts != [] {
      var init := parts[..|parts| - 1];
      var last := parts[|parts| - 1];
      AddPartsEffect(t, init);
      assert VarNames(parts) == VarNames(init) + (if last.Var? then {last.name} else {}) by {
        forall n | n in VarNames(parts)
          ensures n in VarNames(init) || (last.Var? && n == last.name)
        {
          var i :| 0 <= i < |parts| && parts[i].Var? && parts[i].name == n;
          if i < |parts| - 1 {
            assert init[i] == parts[i];
          }
        }
        forall n | n in VarNames(init)
          ensures n in VarNames(parts)
        {
          var i :| 0 <= i < |init| && init[i].Var? && init[i].name == n;
          assert parts[i] == init[i];
        }
      }
    }
  }

  /** Compiling all declared headers adds exactly their variable names to
      `arguments` and gives each of them a converter. */
  lemma {:induction false} CompileAllEffect(t: Tables, headers: seq<(string, seq<HPart>)>)
    ensures CompileAll(t, headers).arguments == t.arguments + AllVarNames(headers)
    ensures AllVarNames(headers) <= CompileAll(t, headers).converters.Keys
    ensures t.converters.Keys <= CompileAll(t, headers).converters.Keys
    decreases |headers|
  {
    if headers != [] {
      var init := headers[..|headers| - 1];
      var u := CompileAll(t, init);
      CompileAllEffect(t, init);
      AddPartsEffect(u.(trace := u.trace + [(false, "|")]), headers[|headers| - 1].1);
    }
  }

  // ---------------------------------------------------------------------
  // Matching (`HeadersRule.match`)
  // ---------------------------------------------------------------------

  /** Every group of every compiled pattern has a converter. */
  predicate Covered(patterns: seq<(string, seq<Item>)>, converters: map<string, Conv>)
  {
    forall i :: 0 <= i < |patterns| ==> GroupNames(patterns[i].1) <= converters.Keys
  }

  function HeaderNames(patterns: seq<(string, seq<Item>)>): set<string>
  {
    set i | 0 <= i < |patterns| :: patterns[i].0
  }

  /** A successful match captures exactly the pattern's groups. */
  lemma CapturesNamed(p: seq<Item>, s: string)
    requires Match(p, s).Some?
    ensures (set c | c in Match(p, s).value :: c.0) == GroupNames(p)
  {
    var pieces := MatchSound(p, s);
    CapturesOfNames(p, pieces);
  }

  lemma {:induction false} CapturesOfNames(p: seq<Item>, pieces: seq<string>)
    requires |pieces| == |p|
    ensures (set c | c in CapturesOf(p, pieces) :: c.0) == GroupNames(p)
    decreases |p|
  {
    if p != [] {
      CapturesOfNames(p[1..], pieces[1..]);
      assert p == [p[0]] + p[1..];
      GroupNamesAppend([p[0]], p[1..]);
      var head := CaptureOf(p[0], pieces[0]);
      var tail := CapturesOf(p[1..], pieces[1..]);
      assert (set c: Capture | c in head + tail :: c.0) == (set c: Capture | c in head :: c.0) + (set c: Capture | c in tail :: c.0);
      if p[0].Group? {
        assert GroupNames([p[0]]) == {p[0].name} by {
          assert [p[0]][0] == p[0];
        }
      } else {
        assert GroupNames([p[0]]) == {};
      }
    }
  }

  /** Every capture has a converter. */
  predicate Named(caps: seq<Capture>, converters: map<string, Conv>)
  {
    forall i :: 0 <= i < |caps| ==> caps[i].0 in converters
  }

  /** The conversion loop over `groupdict()`: each captured text through its
      name's converter, stopping at the first `ValidationError`. */
  function Converted(caps: seq<Capture>, converters: map<string, Conv>, acc: map<string, Value>): (r: Option<map<string, Value>>)
    requires Named(caps, converters)
    ensures r.Some? ==> r.value.Keys == acc.Keys + (set c | c in caps :: c.0)
    ensures r.Some? <==> forall i :: 0 <= i < |caps| ==> ToPython(converters[caps[i].0], caps[i].1).Some?
  {
    if caps == [] then Some(acc)
    else
      match ToPython(converters[caps[0].0], caps[0].1)
      case None => None
      case Some(v) =>
        var r := Converted(caps[1..], converters, acc[caps[0].0 := v]);
        assert caps == [caps[0]] + caps[1..];
        assert forall i :: 1 <= i < |caps| ==> caps[i] == caps[1..][i - 1];
        r
  }

  /** The loop over the declared headers: each value matched against its
      pattern, the captures converted, the rule's defaults laid over them and
      the result merged into the match so far. */
  function HeaderMatches(patterns: seq<(string, seq<Item>)>, converters: map<string, Conv>,
                         defaults: map<string, Value>, m: map<string, Value>,
                         request: map<string, string>): Option<map<string, Value>>
    requires Covered(patterns, converters) && HeaderNames(patterns) <= request.Keys
  {
    if patterns == [] then Some(m)
    else
      HeaderStep(patterns, converters, request);
      match Match(patterns[0].1, request[patterns[0].0])
      case None => None
      case Some(caps) =>
        match Converted(caps, converters, map[])
        case None => None
        case Some(result) => HeaderMatches(patterns[1..], converters, defaults, m + (result + defaults), request)
  }

  /** `HeadersRule.match` once the patterns are compiled: the path match as
      it is when the rule declares no headers, the request supplies none, or
      the path did not match; otherwise `None` unless the request carries
      every declared header, and then the header loop. */
  function RuleMatch(hasHeaders: bool, patterns: seq<(string, seq<Item>)>, converters: map<string, Conv>,
                     defaults: map<string, Value>, pathMatch: Option<map<string, Value>>,
                     request: Option<map<string, string>>): (r: Option<map<string, Value>>)
    requires Covered(patterns, converters)
    ensures !hasHeaders || request.None? || pathMatch.None? ==> r == pathMatch
    ensures hasHeaders && request.Some? && r.Some? ==> pathMatch.Some? && HeaderNames(patterns) <= request.value.Keys
  {
    if !hasHeaders || request.None? || pathMatch.None? then pathMatch
    else if !(HeaderNames(patterns) <= request.value.Keys) then None
    else HeaderMatches(patterns, converters, defaults, pathMatch.value, request.value)
  }

  // ---------------------------------------------------------------------
  // Properties of a header match
  // ---------------------------------------------------------------------

  /** The header loop succeeds exactly when every declared value matches
      its pattern and every capture converts. */
  lemma {:induction false} HeaderMatchesMeaning(patterns: seq<(string, seq<Item>)>, converters: map<string, Conv>,
                                                defaults: map<string, Value>, m: map<string, Value>,
                                                request: map<string, string>)
    requires Covered(patterns, converters) && HeaderNames(patterns) <= request.Keys
    ensures HeaderMatches(patterns, converters, defaults, m, request).Some? <==>
            forall i :: 0 <= i < |patterns| ==> HeaderAccepts(patterns[i], converters, request)
    decreases |patterns|
  {
    if patterns != [] {
      HeaderStep(patterns, converters, request);
      var (h, p) := patterns[0];
      var tail := patterns[1..];
      var r := HeaderMatches(patterns, converters, defaults, m, request);
      AcceptsCons(patterns, converters, request);
      if Match(p, request[h]).Some? && Converted(Match(p, request[h]).value, converters, map[]).Some? {
        var caps := Match(p, request[h]).value;
        var result := Converted(caps, converters, map[]).value;
        var m' := m + (result + defaults);
        HeaderMatchesMeaning(tail, converters, defaults, m', request);
        assert r == HeaderMatches(tail, converters, defaults, m', request);
        assert HeaderAccepts(patterns[0], converters, request);
      } else {
        assert r.None?;
        assert !HeaderAccepts(patterns[0], converters, request);
      }
    }
  }

  /** A successful header loop adds to the path's values exactly the
      captured names, and the defaults once a header is declared. */
  lemma {:induction false} HeaderMatchesKeys(patterns: seq<(string, seq<Item>)>, converters: map<string, Conv>,
                                             defaults: map<string, Value>, m: map<string, Value>,
                                             request: map<string, string>)
    requires Covered(patterns, converters) && HeaderNames(patterns) <= request.Keys
    requires HeaderMatches(patterns, converters, defaults, m, request).Some?
    ensures HeaderMatches(patterns, converters, defaults, m, request).value.Keys ==
            m.Keys + AllGroupNames(patterns) + (if patterns == [] then {} else defaults.Keys)
    decreases |patterns|
  {
    if patterns != [] {
      var tail := patterns[1..];
      var result := HeaderMatchesCons(patterns, converters, defaults, m, request);
      var m' := m + (result + defaults);
      HeaderMatchesKeys(tail, converters, defaults, m', request);
      AllGroupNamesCons(patterns);
      KeysStep(m.Keys, result.Keys, defaults.Keys, AllGroupNames(tail), AllGroupNames(patterns),
               HeaderMatches(tail, converters, defaults, m', request).value.Keys, tail == []);
    }
  }

  /** A successful header loop over a nonempty list is its first header's
      converted captures, with the defaults, merged before the rest. */
  lemma HeaderMatchesCons(patterns: seq<(string, seq<Item>)>, converters: map<string, Conv>,
                          defaults: map<string, Value>, m: map<string, Value>,
                          request: map<string, string>) returns (result: map<string, Value>)
    requires patterns != []
    requires Covered(patterns, converters) && HeaderNames(patterns) <= request.Keys
    requires HeaderMatches(patterns, converters, defaults, m, request).Some?
    ensures Covered(patterns[1..], converters) && HeaderNames(patterns[1..]) <= request.Keys
    ensures result.Keys == GroupNames(patterns[0].1)
    ensures HeaderMatches(patterns, converters, defaults, m, request) ==
            HeaderMatches(patterns[1..], converters, defaults, m + (result + defaults), request)
  {
    HeaderStep(patterns, converters, request);
    var h := patterns[0].0;
    var p := patterns[0].1;
    var caps := Match(p, request[h]).value;
    result := Converted(caps, converters, map[]).value;
    CapturesNamed(p, request[h]);
  }

  /** The set algebra of one step of the header loop. */
  lemma KeysStep(mk: set<string>, g: set<string>, d: set<string>, rest: set<string>, all: set<string>,
                 rk: set<string>, last: bool)
    requires all == g + rest
    requires rk == (mk + (g + d)) + rest + (if last then {} else d)
    ensures rk == mk + all + d
  {
  }

  lemma AcceptsCons(patterns: seq<(string, seq<Item>)>, converters: map<string, Conv>, request: map<string, string>)
    requires patterns != []
    ensures (forall i :: 0 <= i < |patterns| ==> HeaderAccepts(patterns[i], converters, request)) <==>
            HeaderAccepts(patterns[0], converters, request) &&
            forall i :: 0 <= i < |patterns| - 1 ==> HeaderAccepts(patterns[1..][i], converters, request)
  {
    if HeaderAccepts(patterns[0], converters, request) &&
       forall i :: 0 <= i < |patterns| - 1 ==> HeaderAccepts(patterns[1..][i], converters, request) {
      forall i | 1 <= i < |patterns|
        ensures HeaderAccepts(patterns[i], converters, request)
      {
        assert patterns[i] == patterns[1..][i - 1];
      }
    }
  }

  /** One declared header is satisfied: its value matches and every capture
      converts. */
  predicate HeaderAccepts(header: (string, seq<Item>), converters: map<string, Conv>, request: map<string, string>)
  {
    header.0 in request &&
    match Match(header.1, request[header.0])
    case None => false
    case Some(caps) =>
      forall i :: 0 <= i < |caps| ==> caps[i].0 in converters && ToPython(converters[caps[i].0], caps[i].1).Some?
  }

  function AllGroupNames(patterns: seq<(string, seq<Item>)>): set<string>
  {
    set i, n | 0 <= i < |patterns| && n in GroupNames(patterns[i].1) :: n
  }

  lemma AllGroupNamesCons(patterns: seq<(string, seq<Item>)>)
    requires patterns != []
    ensures AllGroupNames(patterns) == GroupNames(patterns[0].1) + AllGroupNames(patterns[1..])
  {
    var tail := patterns[1..];
    forall n | n in AllGroupNames(patterns)
      ensures n in GroupNames(patterns[0].1) + AllGroupNames(tail)
    {
      var i :| 0 <= i < |patterns| && n in GroupNames(patterns[i].1);
      if i > 0 {
        assert tail[i - 1] == patterns[i];
      }
    }
    forall n | n in AllGroupNames(tail)
      ensures n in AllGroupNames(patterns)
    {
      var i :| 0 <= i < |tail| && n in GroupNames(tail[i].1);
      assert patterns[i + 1] == tail[i];
    }
  }

  /** A successful header match cut every declared header's whole value
      into pieces fitting its pattern. */
  lemma WholeValues(patterns: seq<(string, seq<Item>)>, converters: map<string, Conv>,
                    defaults: map<string, Value>, m: map<string, Value>, request: map<string, string>, i: nat)
    requires Covered(patterns, converters) && HeaderNames(patterns) <= request.Keys
    requires HeaderMatches(patterns, converters, defaults, m, request).Some?
    requires i < |patterns|
    ensures exists pieces :: Spans(patterns[i].1, pieces) && Concat(pieces) == request[patterns[i].0]
  {
    HeaderMatchesMeaning(patterns, converters, defaults, m, request);
    assert HeaderAccepts(patterns[i], converters, request);
    MatchIff(patterns[i].1, request[patterns[i].0]);
  }

  // ---------------------------------------------------------------------
  // The rule
  // ---------------------------------------------------------------------

  /** A header-aware route.  `declared` is `self.rule.headers` as written
      (`None` for a plain path rule); `patterns` holds them compiled once
      `compiled` (`_header_rules_compiled`) is set. */
  class HeadersRule {
    const declared: Option<seq<(string, seq<HPart>)>>
    const defaults: map<string, Value>
    var compiled: bool
    var patterns: seq<(string, seq<Item>)>
    var trace: seq<(bool, string)>
    var converters: map<string, Conv>
    var weights: seq<(int, int)>
    var arguments: set<string>

    function State(): Tables
      reads this
    {
      Tables(trace, converters, weights, arguments)
    }

    ghost predicate Valid()
      reads this
    {
      && (!compiled ==> patterns == [])
      && (compiled ==> declared.Some? && patterns == Patterns(declared.value))
      && Covered(patterns, converters)
    }

    /** A bound rule whose path part is already compiled into `path`. */
    constructor (declared: Option<seq<(string, seq<HPart>)>>, defaults: map<string, Value>, path: Tables)
      ensures Valid() && !compiled
      ensures this.declared == declared && this.defaults == defaults && State() == path
    {
      this.declared := declared;
      this.defaults := defaults;
      compiled := false;
      patterns := [];
      trace := path.trace;
      converters := path.converters;
      weights := path.weights;
      arguments := path.arguments;
    }

    /** `compile_header_rule`: translate one declared pattern, extending the
        rule's tables as it goes. */
    method CompileHeaderRule(parts: seq<HPart>) returns (pattern: seq<Item>)
      modifies this
      ensures pattern == PatternOf(parts)
      ensures State() == Compiled(old(State()), parts)
      ensures compiled == old(compiled) && patterns == old(patterns)
    {
      trace := trace + [(false, "|")];
      ghost var start := State();
      pattern := [];
      var i := 0;
      while i < |parts|
        invariant 0 <= i <= |parts|
        invariant pattern == PatternOf(parts[..i])
        invariant State() == AddParts(start, parts[..i])
        invariant compiled == old(compiled) && patterns == old(patterns)
      {
        ghost var before := State();
        var items := BuildPart(parts[i]);
        pattern := pattern + items;
        assert parts[..i + 1][..i] == parts[..i] && parts[..i + 1][i] == parts[i];
        assert PatternOf(parts[..i + 1]) == PatternOf(parts[..i]) + PartItems(parts[i]);
        assert AddParts(start, parts[..i + 1]) == AddPart(AddParts(start, parts[..i]), parts[i]);
        assert State() == AddPart(before, parts[i]);
        i := i + 1;
      }
      assert parts[..i] == parts;
      ghost var body := State();
      trace := trace + [(false, "/")];
      assert State() == body.(trace := body.trace + [(false, "/")]);
    }

    /** One step of `_build_regex`: a static text is translated as a glob and
        weighted by its path pieces; a variable becomes a group and records
        its converter, its weight and its name. */
    method BuildPart(part: HPart) returns (items: seq<Item>)
      modifies this
      ensures items == PartItems(part)
      ensures State() == AddPart(old(State()), part)
      ensures compiled == old(compiled) && patterns == old(patterns)
    {
      match part
      case Static(text) =>
        items := Glob(text);
        trace := trace + [(false, text)];
        var w := PieceWeights(Split(text, '/'));
        weights := weights + w;
      case Var(name, conv) =>
        items := [Group(name, conv)];
        converters := converters[name := conv];
        trace := trace + [(true, name)];
        weights := weights + [(1, Weight(conv))];
        arguments := arguments + {name};
    }

    /** The loop over `variable.split('/')`. */
    static method PieceWeights(pieces: seq<string>) returns (w: seq<(int, int)>)
      ensures w == StaticWeights(pieces)
    {
      w := [];
      var k := 0;
      while k < |pieces|
        invariant 0 <= k <= |pieces|
        invariant w == StaticWeights(pieces[..k])
      {
        assert pieces[..k + 1][..k] == pieces[..k];
        if pieces[k] != "" {
          w := w + [(0, -|pieces[k]|)];
        }
        k := k + 1;
      }
      assert pieces[..k] == pieces;
    }

    /** The first lines of `HeadersRule.match`: compile every declared
        pattern, in declaration order, unless that was done before. */
    method CompileOnce()
      requires Valid()
      modifies this
      ensures Valid()
      ensures compiled == (old(compiled) || declared.Some?)
      ensures old(compiled) || declared.None? ==> State() == old(State()) && patterns == old(patterns)
      ensures !old(compiled) && declared.Some? ==> State() == CompileAll(old(State()), declared.value)
    {
      if declared.Some? && !compiled {
        var headers := declared.value;
        ghost var start := State();
        var compiledHeaders: seq<(string, seq<Item>)> := [];
        var i := 0;
        while i < |headers|
          invariant 0 <= i <= |headers|
          invariant compiledHeaders == Patterns(headers[..i])
          invariant State() == CompileAll(start, headers[..i])
          invariant !compiled && patterns == []
        {
          assert headers[..i + 1][..i] == headers[..i];
          var pattern := CompileHeaderRule(headers[i].1);
          compiledHeaders := compiledHeaders + [(headers[i].0, pattern)];
          i := i + 1;
        }
        assert headers[..i] == headers;
        CompiledCovered(start, headers);
        patterns := compiledHeaders;
        compiled := true;
      }
    }

    /** `HeadersRule.match`, given werkzeug's path match and the request's
        headers (`None` when none were attached).  The declared patterns are
        compiled on the first call only, whether or not the path matched. */
    method Match(pathMatch: Option<map<string, Value>>, request: Option<map<string, string>>)
      returns (r: Option<map<string, Value>>)
      requires Valid()
      modifies this
      ensures Valid()
      ensures compiled == (old(compiled) || declared.Some?)
      ensures old(compiled) || declared.None? ==> State() == old(State()) && patterns == old(patterns)
      ensures !old(compiled) && declared.Some? ==> State() == CompileAll(old(State()), declared.value)
      ensures r == RuleMatch(declared.Some?, patterns, converters, defaults, pathMatch, request)
    {
      CompileOnce();
      if !declared.Some? || request.None? || pathMatch.None? {
        return pathMatch;
      }
      if !(HeaderNames(patterns) <= request.value.Keys) {
        return None;
      }
      r := MatchHeaders(pathMatch.value, request.value);
    }

    /** The loop over the compiled headers. */
    method MatchHeaders(m0: map<string, Value>, headers: map<string, string>) returns (r: Option<map<string, Value>>)
      requires Covered(patterns, converters) && HeaderNames(patterns) <= headers.Keys
      ensures r == HeaderMatches(patterns, converters, defaults, m0, headers)
    {
      var m := m0;
      var i := 0;
      while i < |patterns|
        invariant 0 <= i <= |patterns|
        invariant Covered(patterns[i..], converters) && HeaderNames(patterns[i..]) <= headers.Keys
        invariant HeaderMatches(patterns, converters, defaults, m0, headers)
               == HeaderMatches(patterns[i..], converters, defaults, m, headers)
      {
        var (h, p) := patterns[i];
        HeaderStep(patterns[i..], converters, headers);
        assert patterns[i..][0] == (h, p) && patterns[i..][1..] == patterns[i + 1..];
        var caps := HeaderMatch.Match(p, headers[h]);
        assert HeaderMatches(patterns[i..], converters, defaults, m, headers)
            == if caps.None? then None
               else match Converted(caps.value, converters, map[])
                    case None => None
                    case Some(result) => HeaderMatches(patterns[i + 1..], converters, defaults, m + (result + defaults), headers);
        if caps.None? {
          return None;
        }
        var result := ConvertCaptures(caps.value);
        if result.None? {
          return None;
        }
        m := m + (result.value + defaults);
        i := i + 1;
      }
      return Some(m);
    }

    /** The loop over `groupdict().items()`: every capture through its
        name's converter; the first `ValidationError` rejects the match. */
    method ConvertCaptures(caps: seq<Capture>) returns (r: Option<map<string, Value>>)
      requires Named(caps, converters)
      ensures r == Converted(caps, converters, map[])
    {
      var result := map[];
      var j := 0;
      while j < |caps|
        invariant 0 <= j <= |caps|
        invariant Converted(caps, converters, map[]) == Converted(caps[j..], converters, result)
      {
        assert caps[j..][0] == caps[j] && caps[j..][1..] == caps[j + 1..];
        var (name, text) := caps[j];
        var v := ToPython(converters[name], text);
        if v.None? {
          return None;
        }
        result := result[name := v.value];
        j := j + 1;
      }
      return Some(result);
    }
  }

  /** What one turn of the header loop may rely on: the header is present,
      its captures have converters, and the rest of the list keeps both
      facts. */
  lemma HeaderStep(patterns: seq<(string, seq<Item>)>, converters: map<string, Conv>, request: map<string, string>)
    requires patterns != []
    requires Covered(patterns, converters) && HeaderNames(patterns) <= request.Keys
    ensures patterns[0].0 in request
    ensures Match(patterns[0].1, request[patterns[0].0]).Some? ==>
              Named(Match(patterns[0].1, request[patterns[0].0]).value, converters)
    ensures Covered(patterns[1..], converters) && HeaderNames(patterns[1..]) <= request.Keys
  {
    var (h, p) := patterns[0];
    assert h in HeaderNames(patterns);
    if Match(p, request[h]).Some? {
      var caps := Match(p, request[h]).value;
      CapturesNamed(p, request[h]);
      forall i | 0 <= i < |caps|
        ensures caps[i].0 in converters
      {
        assert caps[i] in caps;
      }
    }
    var tail := patterns[1..];
    forall i | 0 <= i < |tail|
      ensures GroupNames(tail[i].1) <= converters.Keys
    {
      assert tail[i] == patterns[i + 1];
    }
    forall n | n in HeaderNames(tail)
      ensures n in request
    {
      var i :| 0 <= i < |tail| && tail[i].0 == n;
      assert patterns[i + 1].0 == n;
      assert n in HeaderNames(patterns);
    }
  }

  /** Compiling the declared headers gives every group a converter. */
  lemma CompiledCovered(t: Tables, headers: seq<(string, seq<HPart>)>)
    ensures Covered(Patterns(headers), CompileAll(t, headers).converters)
  {
    CompileAllEffect(t, headers);
    forall i | 0 <= i < |headers|
      ensures GroupNames(Patterns(headers)[i].1) <= CompileAll(t, headers).converters.Keys
    {
      PatternGroups(headers[i].1);
      InAllVarNames(headers, i);
    }
  }

  lemma {:induction false} InAllVarNames(headers: seq<(string, seq<HPart>)>, i: nat)
    requires i < |headers|
    ensures VarNames(headers[i].1) <= AllVarNames(headers)
    decreases |headers|
  {
    if i < |headers| - 1 {
      InAllVarNames(headers[..|headers| - 1], i);
    }
  }
}
