/** `endpoint_for` (ldp/helpers.py): from an identifier back to the endpoint
    and view arguments of the first binding whose compiled pattern matches it
    at its start.

    The regex engine is a parameter.  A group's regex is known only by which
    texts it matches in full (`accepts`) and whether its repetition is lazy;
    a pattern is matched the way a backtracking engine does it: each group
    tries its possible lengths in priority order (longest first, or shortest
    first when lazy) and keeps the first one for which the rest of the
    pattern matches. */
module ReverseLookup {
  import opened Wrappers
  import opened RuleSyntax
  import opened UriTemplate
  import opened Bindings

  datatype Engine = Engine(accepts: (string, string) -> bool, lazy: string -> bool)

  /** A group's candidate lengths, in the order the engine tries them. */
  function Order(lazy: bool, n: nat): (c: seq<nat>)
    ensures |c| == n + 1
    ensures forall i :: 0 <= i < |c| ==> c[i] <= n
    ensures forall j :: 0 <= j <= n ==> j in c
  {
    var c := seq(n + 1, (i: int) requires 0 <= i < n + 1 => if lazy then i else n - i);
    forall j | 0 <= j <= n
      ensures j in c
    {
      var i := if lazy then j else n - j;
      assert c[i] == j;
    }
    c
  }

  /** `re.match(pattern, s)`: the captures `(group id, text)` in group order,
      or `None`.  Text after the end of the pattern is ignored. */
  function MatchTokens(eng: Engine, toks: seq<Token>, s: string): Option<seq<(string, string)>>
    decreases |toks|, 1
  {
    if toks == [] then Some([])
    else
      match toks[0]
      case TLit(t) =>
        if |t| <= |s| && s[..|t|] == t then MatchTokens(eng, toks[1..], s[|t|..]) else None
      case TGroup(id, rx) =>
        TryGroup(eng, id, rx, toks[1..], s, Order(eng.lazy(rx), |s|))
  }

  /** The first candidate length the group's regex accepts and after which
      the rest of the pattern matches. */
  function TryGroup(eng: Engine, id: string, rx: string, rest: seq<Token>, s: string, cands: seq<nat>)
    : Option<seq<(string, string)>>
    requires forall i :: 0 <= i < |cands| ==> cands[i] <= |s|
    decreases |rest| + 1, 0, |cands|
  {
    if cands == [] then None
    else
      var j := cands[0];
      var tail := if eng.accepts(rx, s[..j]) then MatchTokens(eng, rest, s[j..]) else None;
      match tail
      case Some(caps) => Some([(id, s[..j])] + caps)
      case None => TryGroup(eng, id, rx, rest, s, cands[1..])
  }

  /** A candidate works when the regex accepts it and the rest matches after it. */
  predicate Works(eng: Engine, rx: string, rest: seq<Token>, s: string, j: nat)
    requires j <= |s|
  {
    eng.accepts(rx, s[..j]) && MatchTokens(eng, rest, s[j..]).Some?
  }

  /** When the first candidate works, the group takes it. */
  lemma TryGroupFirst(eng: Engine, id: string, rx: string, rest: seq<Token>, s: string, cands: seq<nat>)
    requires forall i :: 0 <= i < |cands| ==> cands[i] <= |s|
    requires cands != [] && Works(eng, rx, rest, s, cands[0])
    ensures TryGroup(eng, id, rx, rest, s, cands)
            == Some([(id, s[..cands[0]])] + MatchTokens(eng, rest, s[cands[0]..]).value)
  {
  }

  /** When exactly one candidate works, the group takes it, whatever the order. */
  lemma {:induction false} TryGroupUnique(eng: Engine, id: string, rx: string, rest: seq<Token>,
                                          s: string, cands: seq<nat>, j: nat)
    requires forall i :: 0 <= i < |cands| ==> cands[i] <= |s|
    requires j in cands && j <= |s| && Works(eng, rx, rest, s, j)
    requires forall i :: 0 <= i < |cands| && cands[i] != j ==> !Works(eng, rx, rest, s, cands[i])
    ensures TryGroup(eng, id, rx, rest, s, cands) == Some([(id, s[..j])] + MatchTokens(eng, rest, s[j..]).value)
    decreases |cands|
  {
    if cands[0] != j {
      assert !Works(eng, rx, rest, s, cands[0]);
      TryGroupUnique(eng, id, rx, rest, s, cands[1..], j);
    }
  }

  // ---------------------------------------------------------------------------
  // Collecting the arguments of one match

  /** The loop over `match.groupdict().items()` up to some point: the
      arguments gathered (the first value of every name) and whether a name
      has met a second, different value (`omit_rule`). */
  datatype Gathered = Gathered(args: map<string, string>, omit: bool)

  function Gather(argmap: map<string, string>, caps: seq<(string, string)>): Gathered
    requires forall i :: 0 <= i < |caps| ==> caps[i].0 in argmap
  {
    if caps == [] then Gathered(map[], false)
    else
      var k := |caps| - 1;
      var g := Gather(argmap, caps[..k]);
      var name := argmap[caps[k].0];
      if name !in g.args then Gathered(g.args[name := caps[k].1], g.omit)
      else if g.args[name] != caps[k].1 then Gathered(g.args, true)
      else g
  }

  /** Two captures of one variable that disagree. */
  predicate Conflict(argmap: map<string, string>, caps: seq<(string, string)>)
    requires forall i :: 0 <= i < |caps| ==> caps[i].0 in argmap
  {
    exists i, j :: 0 <= i < |caps| && 0 <= j < |caps|
                   && argmap[caps[i].0] == argmap[caps[j].0] && caps[i].1 != caps[j].1
  }

  /** The names gathered are those of the captures, each holding the value of
      one of its captures. */
  lemma {:induction false} GatherValues(argmap: map<string, string>, caps: seq<(string, string)>)
    requires forall i :: 0 <= i < |caps| ==> caps[i].0 in argmap
    ensures var g := Gather(argmap, caps);
            && (forall i :: 0 <= i < |caps| ==> argmap[caps[i].0] in g.args)
            && (forall n :: n in g.args ==>
                  exists i :: 0 <= i < |caps| && argmap[caps[i].0] == n && g.args[n] == caps[i].1)
    decreases |caps|
  {
    if caps != [] {
      var k := |caps| - 1;
      var pre := caps[..k];
      GatherValues(argmap, pre);
      assert forall i :: 0 <= i < k ==> pre[i] == caps[i];
      var g := Gather(argmap, caps);
      forall n | n in g.args
        ensures exists i :: 0 <= i < |caps| && argmap[caps[i].0] == n && g.args[n] == caps[i].1
      {
        if n == argmap[caps[k].0] && n !in Gather(argmap, pre).args {
          assert g.args[n] == caps[k].1;
        } else {
          var i :| 0 <= i < k && argmap[pre[i].0] == n && Gather(argmap, pre).args[n] == pre[i].1;
          assert argmap[caps[i].0] == n && g.args[n] == caps[i].1;
        }
      }
    }
  }

  /** The rule is omitted exactly when two captures of a variable disagree. */
  lemma GatherOmits(argmap: map<string, string>, caps: seq<(string, string)>)
    requires forall i :: 0 <= i < |caps| ==> caps[i].0 in argmap
    ensures Gather(argmap, caps).omit <==> Conflict(argmap, caps)
  {
    if Gather(argmap, caps).omit {
      OmitConflict(argmap, caps);
    } else {
      KeptAgree(argmap, caps);
    }
  }

  lemma {:induction false} OmitConflict(argmap: map<string, string>, caps: seq<(string, string)>)
    requires forall i :: 0 <= i < |caps| ==> caps[i].0 in argmap
    requires Gather(argmap, caps).omit
    ensures Conflict(argmap, caps)
    decreases |caps|
  {
    var k := |caps| - 1;
    var pre := caps[..k];
    assert forall i :: 0 <= i < k ==> pre[i] == caps[i];
    var g := Gather(argmap, pre);
    if g.omit {
      OmitConflict(argmap, pre);
      var i, j :| 0 <= i < k && 0 <= j < k && argmap[pre[i].0] == argmap[pre[j].0] && pre[i].1 != pre[j].1;
      assert argmap[caps[i].0] == argmap[caps[j].0] && caps[i].1 != caps[j].1;
    } else {
      GatherValues(argmap, pre);
      var name := argmap[caps[k].0];
      var i :| 0 <= i < k && argmap[pre[i].0] == name && g.args[name] == pre[i].1;
      assert argmap[caps[i].0] == argmap[caps[k].0] && caps[i].1 != caps[k].1;
    }
  }

  /** While nothing is omitted, every capture agrees with the gathered value
      of its variable, so no two captures of a variable disagree. */
  lemma {:induction false} KeptAgree(argmap: map<string, string>, caps: seq<(string, string)>)
    requires forall i :: 0 <= i < |caps| ==> caps[i].0 in argmap
    requires !Gather(argmap, caps).omit
    ensures var g := Gather(argmap, caps);
            forall i :: 0 <= i < |caps| ==> argmap[caps[i].0] in g.args && g.args[argmap[caps[i].0]] == caps[i].1
    ensures !Conflict(argmap, caps)
    decreases |caps|
  {
    if caps != [] {
      var k := |caps| - 1;
      var pre := caps[..k];
      assert forall i :: 0 <= i < k ==> pre[i] == caps[i];
      KeptAgree(argmap, pre);
      GatherValues(argmap, pre);
    }
    var g := Gather(argmap, caps);
    assert forall i :: 0 <= i < |caps| ==> g.args[argmap[caps[i].0]] == caps[i].1;
  }

  // ---------------------------------------------------------------------------
  // The lookup

  /** A compiled binding as `endpoint_for` uses it. */
  function PatternOf(b: Binding, table: map<string, Converter>): seq<Token>
    requires "default" in table
  {
    Pattern(RuleParts(b.rule), table)
  }

  /** Every capture of a binding's pattern names a group of its `argmap`. */
  lemma CapturesMapped(eng: Engine, b: Binding, table: map<string, Converter>, s: string)
    requires "default" in table
    requires MatchTokens(eng, PatternOf(b, table), s).Some?
    ensures var caps := MatchTokens(eng, PatternOf(b, table), s).value;
            forall i :: 0 <= i < |caps| ==> caps[i].0 in ArgMap(RuleParts(b.rule))
  {
    var parts := RuleParts(b.rule);
    var toks := PatternOf(b, table);
    PatternTokens(parts, table);
    ArgMapGroups(parts);
    forall j | 0 <= j < |toks| && toks[j].TGroup?
      ensures toks[j].id in ArgMap(parts)
    {
      VariablesPrefix(parts, j);
    }
    CapturesAreGroups(eng, toks, s);
    var caps := MatchTokens(eng, toks, s).value;
    forall i | 0 <= i < |caps|
      ensures caps[i].0 in ArgMap(parts)
    {
      var j :| 0 <= j < |toks| && toks[j].TGroup? && toks[j].id == caps[i].0;
    }
  }

  /** The placeholders before the `j`-th part number fewer than all of them
      when the `j`-th is one too. */
  lemma VariablesPrefix(parts: seq<Part>, j: nat)
    requires j < |parts| && parts[j].Placeholder?
    ensures |Variables(parts[..j])| < |Variables(parts)|
  {
    assert parts == parts[..j] + [parts[j]] + parts[j + 1..];
    VariablesAppend(parts[..j] + [parts[j]], parts[j + 1..]);
    VariablesAppend(parts[..j], [parts[j]]);
  }

  /** Some group of the pattern has this id. */
  predicate HasGroup(toks: seq<Token>, id: string)
  {
    exists j :: 0 <= j < |toks| && toks[j].TGroup? && toks[j].id == id
  }

  /** Captures carry the ids of the pattern's groups. */
  lemma {:induction false} CapturesAreGroups(eng: Engine, toks: seq<Token>, s: string)
    requires MatchTokens(eng, toks, s).Some?
    ensures var caps := MatchTokens(eng, toks, s).value;
            forall i :: 0 <= i < |caps| ==> HasGroup(toks, caps[i].0)
    decreases |toks|, 1
  {
    if toks != [] {
      match toks[0]
      case TLit(t) =>
        CapturesAreGroups(eng, toks[1..], s[|t|..]);
        ShiftGroups(eng, toks, MatchTokens(eng, toks[1..], s[|t|..]).value);
      case TGroup(id, rx) =>
        TryGroupGroups(eng, id, rx, toks, s, Order(eng.lazy(rx), |s|));
    }
  }

  lemma ShiftGroups(eng: Engine, toks: seq<Token>, caps: seq<(string, string)>)
    requires toks != []
    requires forall i :: 0 <= i < |caps| ==> HasGroup(toks[1..], caps[i].0)
    ensures forall i :: 0 <= i < |caps| ==> HasGroup(toks, caps[i].0)
  {
    forall i | 0 <= i < |caps|
      ensures HasGroup(toks, caps[i].0)
    {
      var j :| 0 <= j < |toks[1..]| && toks[1..][j].TGroup? && toks[1..][j].id == caps[i].0;
      assert toks[j + 1] == toks[1..][j];
      assert 0 <= j + 1 < |toks| && toks[j + 1].TGroup? && toks[j + 1].id == caps[i].0;
      assert HasGroup(toks, caps[i].0);
    }
  }

  lemma {:induction false} TryGroupGroups(eng: Engine, id: string, rx: string, toks: seq<Token>, s: string, cands: seq<nat>)
    requires toks != [] && toks[0] == TGroup(id, rx)
    requires forall i :: 0 <= i < |cands| ==> cands[i] <= |s|
    requires TryGroup(eng, id, rx, toks[1..], s, cands).Some?
    ensures var caps := TryGroup(eng, id, rx, toks[1..], s, cands).value;
            forall i :: 0 <= i < |caps| ==> HasGroup(toks, caps[i].0)
    decreases |toks|, 0, |cands|
  {
    var j := cands[0];
    if eng.accepts(rx, s[..j]) && MatchTokens(eng, toks[1..], s[j..]).Some? {
      var tail := MatchTokens(eng, toks[1..], s[j..]).value;
      CapturesAreGroups(eng, toks[1..], s[j..]);
      ShiftGroups(eng, toks, tail);
      var caps := [(id, s[..j])] + tail;
      assert TryGroup(eng, id, rx, toks[1..], s, cands) == Some(caps);
      forall i | 0 <= i < |caps|
        ensures HasGroup(toks, caps[i].0)
      {
        if i == 0 {
          assert toks[0].TGroup? && toks[0].id == caps[0].0;
          assert HasGroup(toks, caps[0].0);
        } else {
          assert caps[i] == tail[i - 1];
          assert HasGroup(toks, tail[i - 1].0);
        }
      }
    } else {
      assert TryGroup(eng, id, rx, toks[1..], s, cands) == TryGroup(eng, id, rx, toks[1..], s, cands[1..]);
      assert forall i :: 0 <= i < |cands[1..]| ==> cands[1..][i] <= |s|;
      TryGroupGroups(eng, id, rx, toks, s, cands[1..]);
    }
  }

  /** The result of trying one binding: its arguments when its pattern matches
      and no variable captured two different values. */
  function TryBinding(eng: Engine, b: Binding, table: map<string, Converter>, ref: string): Option<map<string, string>>
    requires "default" in table
  {
    match MatchTokens(eng, PatternOf(b, table), ref)
    case None => None
    case Some(caps) =>
      CapturesMapped(eng, b, table, ref);
      var g := Gather(ArgMap(RuleParts(b.rule)), caps);
      if g.omit then None else Some(g.args)
  }

  /** What `endpoint_for` returns: the endpoint and arguments of the first
      binding, in registration order, that accepts the identifier. */
  function Lookup(eng: Engine, rules: seq<Binding>, table: map<string, Converter>, ref: string)
    : Option<(string, map<string, string>)>
    requires "default" in table
  {
    if rules == [] then None
    else
      match TryBinding(eng, rules[0], table, ref)
      case Some(args) => Some((rules[0].endpoint, args))
      case None => Lookup(eng, rules[1..], table, ref)
  }

  /** `endpoint_for`: the loop over the bindings of the resource map, with
      `None` standing for `(None, None)`. */
  method EndpointFor(eng: Engine, map_: ResourceMap, ref: string) returns (r: Option<(string, map<string, string>)>)
    requires map_.Valid()
    ensures r == Lookup(eng, map_.rules, map_.converters, ref)
  {
    r := None;
    var rules := map_.rules;
    var table := map_.converters;
    var k := 0;
    while k < |rules|
      invariant k <= |rules|
      invariant Lookup(eng, rules[k..], table, ref) == Lookup(eng, rules, table, ref)
    {
      var b := rules[k];
      var pattern, _, argmap := ParseRule(b.rule, table);
      var found := MatchTokens(eng, pattern, ref);
      if found.Some? {
        var caps := found.value;
        CapturesMapped(eng, b, table, ref);
        var args, omit := GatherArgs(argmap, caps);
        if !omit {
          return Some((b.endpoint, args));
        }
      }
      assert rules[k..][1..] == rules[k + 1..];
      k := k + 1;
    }
  }

  /** The inner loop of `endpoint_for`: the first value of every variable,
      and whether a later capture disagreed with it. */
  method GatherArgs(argmap: map<string, string>, caps: seq<(string, string)>)
      returns (args: map<string, string>, omit: bool)
    requires forall i :: 0 <= i < |caps| ==> caps[i].0 in argmap
    ensures Gathered(args, omit) == Gather(argmap, caps)
  {
    args, omit := map[], false;
    var i := 0;
    while i < |caps|
      invariant i <= |caps|
      invariant Gather(argmap, caps[..i]) == Gathered(args, omit)
    {
      var id := caps[i].0;
      var value := caps[i].1;
      assert caps[..i + 1][..i] == caps[..i];
      if argmap[id] !in args {
        args := args[argmap[id] := value];
      } else if args[argmap[id]] != value {
        omit := true;
      }
      i := i + 1;
    }
    assert caps[..i] == caps;
  }

  /** The first binding that accepts the identifier wins: every binding
      before it either does not match or captured a variable twice with two
      different values. */
  lemma {:induction false} LookupFirst(eng: Engine, rules: seq<Binding>, table: map<string, Converter>, ref: string)
    requires "default" in table
    ensures var r := Lookup(eng, rules, table, ref);
            && (r.None? <==> forall i :: 0 <= i < |rules| ==> TryBinding(eng, rules[i], table, ref).None?)
            && (r.Some? ==>
                  exists i :: 0 <= i < |rules|
                    && TryBinding(eng, rules[i], table, ref) == Some(r.value.1)
                    && r.value.0 == rules[i].endpoint
                    && forall h :: 0 <= h < i ==> TryBinding(eng, rules[h], table, ref).None?)
    decreases |rules|
  {
    if rules != [] {
      LookupFirst(eng, rules[1..], table, ref);
      var r := Lookup(eng, rules, table, ref);
      if TryBinding(eng, rules[0], table, ref).None? {
        if r.Some? {
          var i :| 0 <= i < |rules[1..]|
                   && TryBinding(eng, rules[1..][i], table, ref) == Some(r.value.1)
                   && r.value.0 == rules[1..][i].endpoint
                   && forall h :: 0 <= h < i ==> TryBinding(eng, rules[1..][h], table, ref).None?;
          assert TryBinding(eng, rules[i + 1], table, ref) == Some(r.value.1);
          forall h | 0 <= h < i + 1
            ensures TryBinding(eng, rules[h], table, ref).None?
          {
            if h > 0 {
              assert rules[h] == rules[1..][h - 1];
            }
          }
        } else {
          forall i | 0 <= i < |rules|
            ensures TryBinding(eng, rules[i], table, ref).None?
          {
            if i > 0 {
              assert rules[i] == rules[1..][i - 1];
            }
          }
        }
      }
    }
  }

  /** A binding is skipped when a variable it uses twice captured two
      different values, and accepted with exactly its captured variables
      otherwise. */
  lemma TryBindingMeaning(eng: Engine, b: Binding, table: map<string, Converter>, ref: string)
    requires "default" in table
    ensures var m := MatchTokens(eng, PatternOf(b, table), ref);
            var argmap := ArgMap(RuleParts(b.rule));
            var r := TryBinding(eng, b, table, ref);
            && (m.None? ==> r.None?)
            && (m.Some? ==> (forall i :: 0 <= i < |m.value| ==> m.value[i].0 in argmap)
                            && (r.None? <==> Conflict(argmap, m.value)))
            && (r.Some? ==> forall i :: 0 <= i < |m.value| ==>
                              argmap[m.value[i].0] in r.value && r.value[argmap[m.value[i].0]] == m.value[i].1)
            && (r.Some? ==> forall name :: name in r.value <==>
                              exists i :: 0 <= i < |m.value| && argmap[m.value[i].0] == name)
  {
    var m := MatchTokens(eng, PatternOf(b, table), ref);
    if m.Some? {
      CapturesMapped(eng, b, table, ref);
      var argmap := ArgMap(RuleParts(b.rule));
      GatherValues(argmap, m.value);
      GatherOmits(argmap, m.value);
      if !Conflict(argmap, m.value) {
        KeptAgree(argmap, m.value);
      }
    }
  }
}
