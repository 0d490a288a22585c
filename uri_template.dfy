/** `URIRefBinding.parsed_rule` of ldp/binding.py: compiling an identifier
    template into a pattern with groups `id0, id1, ...`, a `str.format`
    template and the map from group ids to variable names; and
    `URIRefBinding.uriref`, which fills the template. */
module UriTemplate {
  import opened Wrappers
  import opened Strings
  import opened Values
  import opened RuleSyntax

  /** A converter class, as the compiler sees it: its class-level `regex`. */
  datatype Converter = Converter(regex: string)

  /** werkzeug's default converter table, by class-level regex (`any` and
      `string` inherit the base class's `[^/]+`). */
  const DefaultConverters: map<string, Converter> := map[
    "default" := Converter("[^/]+"),
    "string" := Converter("[^/]+"),
    "any" := Converter("[^/]+"),
    "path" := Converter("[^/].*?"),
    "int" := Converter("\\d+"),
    "float" := Converter("\\d+\\.\\d+"),
    "uuid" := Converter("[A-Fa-f0-9]{8}-[A-Fa-f0-9]{4}-[A-Fa-f0-9]{4}-[A-Fa-f0-9]{4}-[A-Fa-f0-9]{12}")
  ]

  /** `map.converters.get(part[2], map.converters['default'])`: a placeholder
      without a converter, or with one the table does not know, gets the
      default converter. */
  function ConverterFor(table: map<string, Converter>, name: Option<string>): Converter
    requires "default" in table
  {
    if name.Some? && name.value in table then table[name.value] else table["default"]
  }

  /** `get_converter`: unlike the compiler, an unknown name is a `LookupError`. */
  function GetConverter(table: map<string, Converter>, name: string): Result<Converter, string>
  {
    if name in table then Success(table[name])
    else Failure("the converter '" + name + "' does not exist")
  }

  /** The compiler and `get_converter` agree on known names; on an unknown
      name the compiler silently uses the default while `get_converter` fails. */
  lemma UnknownConverterFallsBack(table: map<string, Converter>, name: string)
    requires "default" in table
    ensures GetConverter(table, name).Failure? <==> name !in table
    ensures GetConverter(table, name).Success? ==>
              GetConverter(table, name).value == ConverterFor(table, Some(name))
    ensures name !in table ==> ConverterFor(table, Some(name)) == table["default"]
    ensures ConverterFor(table, None) == table["default"]
  {
  }

  // ---------------------------------------------------------------------------
  // Adding `<` to a bracket class that excludes `/`

  /** `k` closes the group of `re.match(r'\[(.*\/.*)\]', r)`: the regex starts
      with `[`, `r[k]` is `]`, and the text in between holds a `/` and no line
      break (`.` does not match one). */
  predicate ClosesExclusion(r: string, k: nat)
  {
    1 <= k < |r| && r[0] == '[' && r[k] == ']' && '/' in r[1..k] && '\n' !in r[1..k]
  }

  function CloseSearch(r: string, k: nat): (q: Option<nat>)
    requires k < |r|
    ensures q.Some? ==> q.value <= k && ClosesExclusion(r, q.value)
    ensures q.Some? ==> forall j :: q.value < j <= k ==> !ClosesExclusion(r, j)
    ensures q.None? ==> forall j :: 0 <= j <= k ==> !ClosesExclusion(r, j)
    decreases k
  {
    if k == 0 then None
    else if ClosesExclusion(r, k) then Some(k)
    else CloseSearch(r, k - 1)
  }

  /** Where the excluded-characters group ends.  Both `.*` are greedy, so the
      match ends at the last `]` that can close it. */
  function ExclusionEnd(r: string): (q: Option<nat>)
    ensures q.Some? ==> ClosesExclusion(r, q.value)
    ensures q.Some? ==> forall j :: q.value < j < |r| ==> !ClosesExclusion(r, j)
    ensures q.None? ==> forall j :: 0 <= j < |r| ==> !ClosesExclusion(r, j)
  {
    if r == [] then None else CloseSearch(r, |r| - 1)
  }

  /** `str.find`: the first index at or after `i` where `t` occurs. */
  function FindFrom(s: string, t: string, i: nat): (r: Option<nat>)
    ensures r.Some? ==> i <= r.value && r.value + |t| <= |s| && s[r.value..r.value + |t|] == t
    decreases |s| - i
  {
    if i + |t| > |s| then None
    else if s[i..i + |t|] == t then Some(i)
    else FindFrom(s, t, i + 1)
  }

  function Find(s: string, t: string): Option<nat>
  {
    FindFrom(s, t, 0)
  }

  /** The excluded characters `r[1..q]` are found where they are, right after
      the `[`: they cannot also start at index 0, since that would make every
      one of them a `[`, and they contain a `/`. */
  lemma FindExclusion(r: string, q: nat)
    requires ClosesExclusion(r, q)
    ensures Find(r, r[1..q]) == Some(1)
  {
    var e := r[1..q];
    var k :| 0 <= k < |e| && e[k] == '/';
    if r[0..|e|] == e {
      forall j | 0 <= j < |e|
        ensures r[j] == r[j + 1]
      {
        assert r[0..|e|][j] == e[j];
      }
      SameAsFirst(r, |e|);
      assert false;
    }
    assert r[1..1 + |e|] == e;
    assert FindFrom(r, e, 1) == Some(1);
    assert FindFrom(r, e, 0) == FindFrom(r, e, 1);
  }

  lemma {:induction false} SameAsFirst(r: string, n: nat)
    requires n < |r|
    requires forall j :: 0 <= j < n ==> r[j] == r[j + 1]
    ensures forall j :: 0 <= j <= n ==> r[j] == r[0]
    decreases n
  {
    if n > 0 {
      SameAsFirst(r, n - 1);
      assert r[n - 1] == r[n];
    }
  }

  /** The converter regex with `<` added to its excluded characters: when the
      regex opens with a bracket class holding a `/` and that class does not
      already exclude `<`, a `<` is inserted right before its closing `]`;
      every other regex is kept as it is. */
  function Widen(regex: string): (r: string)
    ensures ExclusionEnd(regex).None? ==> r == regex
    ensures ExclusionEnd(regex).Some? ==>
              var q := ExclusionEnd(regex).value;
              r == if '<' in regex[1..q] then regex else regex[..q] + "<" + regex[q..]
  {
    match ExclusionEnd(regex)
    case None => regex
    case Some(q) =>
      var e := regex[1..q];
      if '<' in e then regex
      else
        FindExclusion(regex, q);
        var pos := Find(regex, e).value + |e|;
        regex[..pos] + "<" + regex[pos..]
  }

  /** A regex opening with the class `[^/]` and holding no other `]` gets
      `<` added to that class, and nothing else changes. */
  lemma WidenSlashClass(r: string)
    requires 4 <= |r| && r[..4] == "[^/]"
    requires forall j :: 4 <= j < |r| ==> r[j] != ']'
    ensures Widen(r) == r[..3] + "<" + r[3..]
  {
    assert r[0] == r[..4][0] == '[' && r[3] == r[..4][3] == ']';
    assert r[1..3] == r[..4][1..3] == "^/";
    assert r[1..3][1] == '/';
    assert ClosesExclusion(r, 3);
    assert ExclusionEnd(r) == Some(3);
  }

  /** What the widening does to werkzeug's default converters: the base
      `[^/]+` becomes `[^/<]+`, `path`'s `[^/].*?` becomes `[^/<].*?`, and
      the integer converter's `\\d+`, without a bracket class, is kept. */
  lemma WidenConverters()
    ensures Widen("[^/]+") == "[^/<]+"
    ensures Widen("[^/].*?") == "[^/<].*?"
    ensures Widen("\\d+") == "\\d+"
  {
    WidenSlashClass("[^/]+");
    WidenSlashClass("[^/].*?");
    WidenWithoutClose("\\d+");
  }

  /** A regex without a `]` has no class to widen and is kept. */
  lemma WidenWithoutClose(r: string)
    requires ']' !in r
    ensures Widen(r) == r
  {
    forall j | 0 <= j < |r|
      ensures !ClosesExclusion(r, j)
    {
      assert r[j] in r;
    }
  }

  lemma WidenWidened()
    ensures Widen("[^/<]+") == "[^/<]+"
  {
    var r := "[^/<]+";
    assert ClosesExclusion(r, 4) by { assert r[1..4][1] == '/'; }
    assert ExclusionEnd(r) == Some(4);
    assert r[1..4][2] == '<';
  }

  // ---------------------------------------------------------------------------
  // The compiled pattern, the template and the group-id map

  /** `'id%s' % i`, the name of the `i`-th group. */
  function GroupId(n: nat): string
  {
    "id" + NatToString(n)
  }

  lemma GroupIdInjective(a: nat, b: nat)
    requires GroupId(a) == GroupId(b)
    ensures a == b
  {
    assert NatToString(a) == GroupId(a)[2..];
    assert NatToString(b) == GroupId(b)[2..];
    NatToStringInjective(a, b);
  }

  /** One piece of the compiled regex: `re.escape(text)`, which matches the
      text literally, or a named group `(?P<id>regex)`. */
  datatype Token = TLit(text: string) | TGroup(id: string, regex: string)

  /** The token for a part, `n` being the number of placeholders before it. */
  function TokenFor(p: Part, n: nat, table: map<string, Converter>): Token
    requires "default" in table
  {
    match p
    case Lit(t) => TLit(t)
    case Placeholder(_, _, conv) => TGroup(GroupId(n), Widen(ConverterFor(table, conv).regex))
  }

  /** The compiled pattern of a sequence of parts (built left to right). */
  function Pattern(parts: seq<Part>, table: map<string, Converter>): seq<Token>
    requires "default" in table
    decreases |parts|
  {
    if parts == [] then []
    else
      var k := |parts| - 1;
      Pattern(parts[..k], table) + [TokenFor(parts[k], |Variables(parts[..k])|, table)]
  }

  /** The group-id map of a sequence of parts (built left to right). */
  function ArgMap(parts: seq<Part>): map<string, string>
    decreases |parts|
  {
    if parts == [] then map[]
    else
      var k := |parts| - 1;
      var m := ArgMap(parts[..k]);
      if parts[k].Placeholder? then m[GroupId(|Variables(parts[..k])|) := parts[k].variable] else m
  }

  /** The set of argument names a binding needs (`set(argmap.values())`). */
  function Arguments(parts: seq<Part>): set<string>
  {
    ArgMap(parts).Values
  }

  /** The template text the source builds: literal text verbatim, `{name}` at
      each placeholder. */
  function Template(parts: seq<Part>): string
  {
    if parts == [] then "" else Piece(parts[0]) + Template(parts[1..])
  }

  function Piece(p: Part): string
  {
    match p
    case Lit(t) => t
    case Placeholder(v, _, _) => "{" + v + "}"
  }

  lemma {:induction false} TemplateAppend(a: seq<Part>, p: Part)
    ensures Template(a + [p]) == Template(a) + Piece(p)
    decreases |a|
  {
    if a == [] {
      assert a + [p] == [p];
    } else {
      assert (a + [p])[0] == a[0];
      assert (a + [p])[1..] == a[1..] + [p];
      TemplateAppend(a[1..], p);
    }
  }

  /** Literal text holds no brace, so that the source's template and the
      escaped one coincide. */
  predicate BraceFree(parts: seq<Part>)
  {
    forall i :: 0 <= i < |parts| && parts[i].Lit? ==> '{' !in parts[i].text && '}' !in parts[i].text
  }

  /** `{` and `}` doubled, so that `str.format` reproduces the text. */
  function Escape(t: string): string
  {
    if t == [] then ""
    else (if t[0] == '{' then "{{" else if t[0] == '}' then "}}" else [t[0]]) + Escape(t[1..])
  }

  /** The template with literal text escaped for `str.format`. */
  function EscapedTemplate(parts: seq<Part>): string
  {
    if parts == [] then "" else EscapedPiece(parts[0]) + EscapedTemplate(parts[1..])
  }

  function EscapedPiece(p: Part): string
  {
    match p
    case Lit(t) => Escape(t)
    case Placeholder(v, _, _) => "{" + v + "}"
  }

  /** `parsed_rule`: one pass over the parts of the template, numbering the
      placeholders as it goes.  Literal text goes into the template verbatim,
      which is the escaped template only when it holds no brace. */
  method ParseRule(rule: string, table: map<string, Converter>)
      returns (pattern: seq<Token>, template: string, argmap: map<string, string>)
    requires "default" in table
    ensures pattern == Pattern(RuleParts(rule), table)
    ensures template == Template(RuleParts(rule))
    ensures BraceFree(RuleParts(rule)) ==> template == EscapedTemplate(RuleParts(rule))
    ensures argmap == ArgMap(RuleParts(rule))
  {
    var parts := IterRuleParts(rule);
    pattern, template, argmap := [], "", map[];
    var i := 0;
    var k := 0;
    while k < |parts|
      invariant k <= |parts|
      invariant i == |Variables(parts[..k])|
      invariant pattern == Pattern(parts[..k], table)
      invariant template == Template(parts[..k])
      invariant argmap == ArgMap(parts[..k])
    {
      pattern, template, argmap, i := ParsePart(parts, k, table, pattern, template, argmap, i);
      k := k + 1;
    }
    assert parts[..k] == parts;
    if BraceFree(parts) {
      TemplateWithoutBraces(parts);
    }
  }

  /** One pass of the loop of `parsed_rule`: a literal extends the pattern
      and the template; a placeholder also takes the next group id. */
  method ParsePart(parts: seq<Part>, k: nat, table: map<string, Converter>,
                   pattern: seq<Token>, template: string, argmap: map<string, string>, i: nat)
      returns (pattern': seq<Token>, template': string, argmap': map<string, string>, i': nat)
    requires k < |parts| && "default" in table
    requires i == |Variables(parts[..k])|
    requires pattern == Pattern(parts[..k], table)
    requires template == Template(parts[..k])
    requires argmap == ArgMap(parts[..k])
    ensures i' == |Variables(parts[..k + 1])|
    ensures pattern' == Pattern(parts[..k + 1], table)
    ensures template' == Template(parts[..k + 1])
    ensures argmap' == ArgMap(parts[..k + 1])
  {
    match parts[k] {
      case Lit(t) =>
        LitStep(parts, k, table);
        pattern' := pattern + [TLit(t)];
        template' := template + t;
        argmap' := argmap;
        i' := i;
      case Placeholder(name, args, conv) =>
        PlaceholderStep(parts, k, table);
        var converter := ConverterFor(table, conv);
        var regex := Widen(converter.regex);
        var varname := GroupId(i);
        argmap' := argmap[varname := name];
        template' := template + "{" + name + "}";
        pattern' := pattern + [TGroup(varname, regex)];
        i' := i + 1;
    }
  }

  /** What one more literal adds to the pattern, the template and the map. */
  lemma LitStep(parts: seq<Part>, k: nat, table: map<string, Converter>)
    requires k < |parts| && "default" in table && parts[k].Lit?
    ensures Pattern(parts[..k + 1], table) == Pattern(parts[..k], table) + [TLit(parts[k].text)]
    ensures Template(parts[..k + 1]) == Template(parts[..k]) + parts[k].text
    ensures ArgMap(parts[..k + 1]) == ArgMap(parts[..k])
    ensures Variables(parts[..k + 1]) == Variables(parts[..k])
  {
    assert parts[..k + 1][..k] == parts[..k];
    assert parts[..k + 1] == parts[..k] + [parts[k]];
    VariablesAppend(parts[..k], [parts[k]]);
    TemplateAppend(parts[..k], parts[k]);
  }

  /** What one more placeholder adds to the pattern, the template and the map. */
  lemma PlaceholderStep(parts: seq<Part>, k: nat, table: map<string, Converter>)
    requires k < |parts| && "default" in table && parts[k].Placeholder?
    ensures var n := |Variables(parts[..k])|;
            var p := parts[k];
            && Pattern(parts[..k + 1], table) ==
                 Pattern(parts[..k], table) + [TGroup(GroupId(n), Widen(ConverterFor(table, p.converter).regex))]
            && Template(parts[..k + 1]) == Template(parts[..k]) + "{" + p.variable + "}"
            && ArgMap(parts[..k + 1]) == ArgMap(parts[..k])[GroupId(n) := p.variable]
            && |Variables(parts[..k + 1])| == n + 1
  {
    assert parts[..k + 1][..k] == parts[..k];
    assert parts[..k + 1] == parts[..k] + [parts[k]];
    VariablesAppend(parts[..k], [parts[k]]);
    TemplateAppend(parts[..k], parts[k]);
  }

  /** One token per part, in order; the `n`-th placeholder becomes the group
      `id{n}` with its converter's (widened) regex. */
  lemma {:induction false} PatternTokens(parts: seq<Part>, table: map<string, Converter>)
    requires "default" in table
    ensures |Pattern(parts, table)| == |parts|
    ensures forall j :: 0 <= j < |parts| ==>
              Pattern(parts, table)[j] == TokenFor(parts[j], |Variables(parts[..j])|, table)
    decreases |parts|
  {
    if parts != [] {
      var k := |parts| - 1;
      PatternTokens(parts[..k], table);
      forall j | 0 <= j < k
        ensures parts[..k][..j] == parts[..j]
      {
      }
    }
  }

  /** The group-id map sends `id{n}` to the `n`-th placeholder's variable and
      has no other keys; a variable used twice is the value of two keys. */
  lemma {:induction false} ArgMapGroups(parts: seq<Part>)
    ensures forall n :: 0 <= n < |Variables(parts)| ==>
              GroupId(n) in ArgMap(parts) && ArgMap(parts)[GroupId(n)] == Variables(parts)[n]
    ensures forall id :: id in ArgMap(parts) ==>
              exists n :: 0 <= n < |Variables(parts)| && id == GroupId(n)
    decreases |parts|
  {
    if parts != [] {
      var k := |parts| - 1;
      var pre := parts[..k];
      assert parts == pre + [parts[k]];
      ArgMapGroups(pre);
      VariablesAppend(pre, [parts[k]]);
      if parts[k].Placeholder? {
        var m := |Variables(pre)|;
        forall n | 0 <= n < m
          ensures GroupId(n) != GroupId(m)
        {
          if GroupId(n) == GroupId(m) {
            GroupIdInjective(n, m);
          }
        }
      }
    }
  }

  /** `arguments` is exactly the set of variable names of the template. */
  lemma ArgumentsAreVariables(parts: seq<Part>)
    ensures Arguments(parts) == set n | 0 <= n < |Variables(parts)| :: Variables(parts)[n]
  {
    ArgMapGroups(parts);
    var vs := Variables(parts);
    forall v | v in Arguments(parts)
      ensures exists n :: 0 <= n < |vs| && vs[n] == v
    {
      var id :| id in ArgMap(parts) && ArgMap(parts)[id] == v;
      var n :| 0 <= n < |vs| && id == GroupId(n);
    }
    forall n | 0 <= n < |vs|
      ensures vs[n] in Arguments(parts)
    {
      assert ArgMap(parts)[GroupId(n)] == vs[n];
    }
  }

  // ---------------------------------------------------------------------------
  // `str.format` with keyword arguments

  datatype FormatError =
    | SingleClose                      // a `}` that is not doubled
    | UnclosedField                    // a `{` with no `}` after it
    | UnsupportedField(field: string)  // anything but a plain identifier
    | MissingKey(name: string)         // `KeyError`

  function Prepend(s: string, r: Result<string, FormatError>): Result<string, FormatError>
  {
    match r
    case Success(t) => Success(s + t)
    case Failure(e) => Failure(e)
  }

  /** `fmt.format(**args)` for templates whose fields are plain names: `{{`
      and `}}` stand for single braces, `{name}` is replaced by `str` of the
      argument, and errors are raised in left-to-right order. */
  function Format(fmt: string, args: map<string, Value>): Result<string, FormatError>
    decreases |fmt|
  {
    if fmt == [] then Success("")
    else if fmt[0] == '{' && |fmt| > 1 && fmt[1] == '{' then Prepend("{", Format(fmt[2..], args))
    else if fmt[0] == '}' && |fmt| > 1 && fmt[1] == '}' then Prepend("}", Format(fmt[2..], args))
    else if fmt[0] == '}' then Failure(SingleClose)
    else if fmt[0] == '{' then
      var e := RunWithout(fmt[1..], '}');
      if e == |fmt| - 1 then Failure(UnclosedField)
      else
        var field := fmt[1..1 + e];
        if !IsIdent(field) then Failure(UnsupportedField(field))
        else if field !in args then Failure(MissingKey(field))
        else Prepend(Str(args[field]), Format(fmt[e + 2..], args))
    else Prepend([fmt[0]], Format(fmt[1..], args))
  }

  /** The identifier the template is meant to give: literal text as written
      and each variable's value in its place. */
  function Fill(parts: seq<Part>, args: map<string, Value>): string
  {
    if parts == [] then ""
    else
      (match parts[0]
       case Lit(t) => t
       case Placeholder(v, _, _) => if v in args then Str(args[v]) else "") + Fill(parts[1..], args)
  }

  /** `uriref(**args)` corrected: it fills the escaped template, so that
      literal braces come out as written (the source's own is
      `UrirefAsWritten`; the two agree on brace-free templates). */
  function Uriref(rule: string, args: map<string, Value>): Result<string, FormatError>
  {
    Format(EscapedTemplate(RuleParts(rule)), args)
  }

  /** `uriref(**args)` as the source builds the template, literal braces and all. */
  function UrirefAsWritten(rule: string, args: map<string, Value>): Result<string, FormatError>
  {
    Format(Template(RuleParts(rule)), args)
  }

  lemma {:induction false} FormatEscaped(t: string, rest: string, args: map<string, Value>)
    ensures Format(Escape(t) + rest, args) == Prepend(t, Format(rest, args))
    decreases |t|
  {
    if t == [] {
      assert Escape(t) + rest == rest;
      PrependEmpty(Format(rest, args));
    } else {
      FormatEscaped(t[1..], rest, args);
      EscapedStep(t, rest, args);
      PrependPrepend([t[0]], t[1..], Format(rest, args));
      assert [t[0]] + t[1..] == t;
    }
  }

  lemma EscapedStep(t: string, rest: string, args: map<string, Value>)
    requires t != []
    ensures Format(Escape(t) + rest, args) == Prepend([t[0]], Format(Escape(t[1..]) + rest, args))
  {
    var tail := Escape(t[1..]) + rest;
    if t[0] == '{' || t[0] == '}' {
      assert Escape(t) + rest == [t[0], t[0]] + tail;
      FormatDoubled(t[0], tail, args);
    } else {
      assert Escape(t) + rest == [t[0]] + tail;
      FormatPlain(t[0], tail, args);
    }
  }

  lemma PrependEmpty(r: Result<string, FormatError>)
    ensures Prepend("", r) == r
  {
    if r.Success? {
      assert "" + r.value == r.value;
    }
  }

  lemma FormatDoubled(c: char, tail: string, args: map<string, Value>)
    requires c == '{' || c == '}'
    ensures Format([c, c] + tail, args) == Prepend([c], Format(tail, args))
  {
    assert ([c, c] + tail)[2..] == tail;
  }

  lemma FormatPlain(c: char, tail: string, args: map<string, Value>)
    requires c != '{' && c != '}'
    ensures Format([c] + tail, args) == Prepend([c], Format(tail, args))
  {
    assert ([c] + tail)[1..] == tail;
  }

  lemma PrependPrepend(a: string, b: string, r: Result<string, FormatError>)
    ensures Prepend(a, Prepend(b, r)) == Prepend(a + b, r)
  {
    if r.Success? {
      assert a + (b + r.value) == (a + b) + r.value;
    }
  }

  lemma FormatField(v: string, rest: string, args: map<string, Value>)
    requires IsIdent(v)
    ensures Format("{" + v + "}" + rest, args) ==
              if v in args then Prepend(Str(args[v]), Format(rest, args)) else Failure(MissingKey(v))
  {
    var f := "{" + v + "}" + rest;
    assert f[1..] == v + ("}" + rest);
    assert '}' !in v by {
      forall i | 0 <= i < |v|
        ensures v[i] != '}'
      {
        assert IsIdentChar(v[i]);
      }
    }
    assert f[1] == v[0];
    RunWithoutPrefix(v, "}" + rest, '}');
    assert f[1..1 + |v|] == v;
    assert f[|v| + 2..] == rest;
  }

  lemma {:induction false} RunWithoutPrefix(a: string, b: string, c: char)
    requires c !in a && b != [] && b[0] == c
    ensures RunWithout(a + b, c) == |a|
    decreases |a|
  {
    if a == [] {
      assert a + b == b;
    } else {
      assert (a + b)[1..] == a[1..] + b;
      RunWithoutPrefix(a[1..], b, c);
    }
  }

  /** Filling the escaped template succeeds exactly when every variable has
      an argument, and then gives the intended identifier; otherwise it fails
      with a `KeyError` naming a missing variable. */
  ghost predicate FillsOrMisses(parts: seq<Part>, args: map<string, Value>)
  {
    var r := Format(EscapedTemplate(parts), args);
    && (r.Success? <==> forall n :: 0 <= n < |Variables(parts)| ==> Variables(parts)[n] in args)
    && (r.Success? ==> r.value == Fill(parts, args))
    && (r.Failure? ==> r.error.MissingKey? && r.error.name !in args && r.error.name in Variables(parts))
  }

  lemma {:induction false} FormatTemplate(parts: seq<Part>, args: map<string, Value>)
    requires forall i :: 0 <= i < |parts| ==> WellFormed(parts[i])
    ensures FillsOrMisses(parts, args)
    decreases |parts|
  {
    if parts != [] {
      FormatTemplate(parts[1..], args);
      if parts[0].Lit? {
        FormatLitFirst(parts, args);
      } else {
        assert WellFormed(parts[0]);
        FormatPlaceholderFirst(parts, args);
      }
    }
  }

  lemma FormatLitFirst(parts: seq<Part>, args: map<string, Value>)
    requires parts != [] && parts[0].Lit? && FillsOrMisses(parts[1..], args)
    ensures FillsOrMisses(parts, args)
  {
    FormatEscaped(parts[0].text, EscapedTemplate(parts[1..]), args);
    assert Variables(parts) == Variables(parts[1..]);
  }

  lemma FormatPlaceholderFirst(parts: seq<Part>, args: map<string, Value>)
    requires parts != [] && parts[0].Placeholder? && WellFormed(parts[0]) && FillsOrMisses(parts[1..], args)
    ensures FillsOrMisses(parts, args)
  {
    var v := parts[0].variable;
    var rest := EscapedTemplate(parts[1..]);
    var vs := Variables(parts[1..]);
    FormatField(v, rest, args);
    assert "{" + v + "}" + rest == EscapedTemplate(parts);
    assert Variables(parts) == [v] + vs;
    if v in args && Format(rest, args).Success? {
      forall n | 0 <= n < |Variables(parts)|
        ensures Variables(parts)[n] in args
      {
        if n > 0 {
          assert Variables(parts)[n] == vs[n - 1];
        }
      }
    }
    if v in args && !Format(rest, args).Success? {
      var n :| 0 <= n < |vs| && vs[n] !in args;
      assert Variables(parts)[n + 1] == vs[n];
    }
    if v !in args {
      assert Variables(parts)[0] == v;
    }
  }

  /** The corrected `uriref`: every variable has an argument iff it succeeds,
      and then it spells out the template with the values in place. */
  lemma UrirefFills(rule: string, args: map<string, Value>)
    ensures var r := Uriref(rule, args);
            var vs := Variables(RuleParts(rule));
            && (r.Success? <==> forall n :: 0 <= n < |vs| ==> vs[n] in args)
            && (r.Success? ==> r.value == Fill(RuleParts(rule), args))
            && (r.Failure? ==> r.error.MissingKey? && r.error.name !in args && r.error.name in vs)
  {
    var parts := RuleParts(rule);
    RulePartsShape(rule);
    FormatTemplate(parts, args);
    assert Uriref(rule, args) == Format(EscapedTemplate(parts), args);
    assert FillsOrMisses(parts, args);
  }

  /** Escaping changes nothing when no literal text holds a brace. */
  lemma {:induction false} TemplateWithoutBraces(parts: seq<Part>)
    requires BraceFree(parts)
    ensures Template(parts) == EscapedTemplate(parts)
    decreases |parts|
  {
    if parts != [] {
      TemplateWithoutBraces(parts[1..]);
      if parts[0].Lit? {
        EscapeWithoutBraces(parts[0].text);
      }
    }
  }

  /** On a template whose literal text holds no brace, the source's `uriref`
      and the corrected one give the same identifier or the same error, so
      what is proved of `Uriref` holds of the source for such templates. */
  lemma UrirefAsWrittenAgrees(rule: string, args: map<string, Value>)
    requires BraceFree(RuleParts(rule))
    ensures UrirefAsWritten(rule, args) == Uriref(rule, args)
  {
    TemplateWithoutBraces(RuleParts(rule));
  }

  lemma {:induction false} EscapeWithoutBraces(t: string)
    requires '{' !in t && '}' !in t
    ensures Escape(t) == t
    decreases |t|
  {
    if t != [] {
      EscapeWithoutBraces(t[1..]);
      assert t == [t[0]] + t[1..];
    }
  }

  /** The parts of the templates used below. */
  lemma PartsOfBraced()
    ensures RuleParts("{<c>}") == [Lit("{"), Placeholder("c", None, None), Lit("}")]
  {
    var rule := "{<c>}";
    RunWithoutAt(rule, '<', 1);
    assert rule[2..] == "c>}";
    IdentLenAt("c>}", 1);
    assert "c>}"[..1] == "c";
    assert MatchBody("c>}") == Some(Body(Placeholder("c", None, None), 2));
    assert rule[4..] == "}";
    RunWithoutAll("}", '\n');
    assert "}"[..1] == "}";
    assert rule[..1] == "{";
    assert MatchRule(rule) == Some(Step("{", Placeholder("c", None, None), "}"));
    RunWithoutAll("}", '<');
    assert MatchRule("}") == None;
  }

  lemma PartsOfLoneClose()
    ensures RuleParts("a}<c>") == [Lit("a}"), Placeholder("c", None, None), Lit("")]
  {
    var rule := "a}<c>";
    RunWithoutAt(rule, '<', 2);
    assert rule[3..] == "c>";
    IdentLenAt("c>", 1);
    assert "c>"[..1] == "c";
    assert MatchBody("c>") == Some(Body(Placeholder("c", None, None), 2));
    assert rule[5..] == "";
    assert rule[..2] == "a}";
    assert MatchRule(rule) == Some(Step("a}", Placeholder("c", None, None), ""));
  }

  /** As written, literal braces in a template are read as format syntax:
      `{<c>}` with `c = x` gives `{c}` instead of `{x}`. */
  lemma BracedAsWritten()
    ensures UrirefAsWritten("{<c>}", map["c" := Text("x")]) == Success("{c}")
  {
    PartsOfBraced();
    TemplateOfBraced();
    FormatBraced();
  }

  lemma TemplateOfBraced()
    ensures Template([Lit("{"), Placeholder("c", None, None), Lit("}")]) == "{{c}}"
  {
    var parts := [Lit("{"), Placeholder("c", None, None), Lit("}")];
    assert Template(parts[2..]) == "}";
    assert Template(parts[1..]) == "{c}" + "}";
  }

  lemma FormatBraced()
    ensures Format("{{c}}", map["c" := Text("x")]) == Success("{c}")
  {
    var args := map["c" := Text("x")];
    assert "}}" == ['}', '}'] + "";
    FormatDoubled('}', "", args);
    assert ['}'] + "" == "}";
    assert Format("}}", args) == Success("}");
    assert "c}}" == ['c'] + "}}";
    FormatPlain('c', "}}", args);
    assert ['c'] + "}" == "c}";
    assert Format("c}}", args) == Success("c}");
    assert "{{c}}" == ['{', '{'] + "c}}";
    FormatDoubled('{', "c}}", args);
    assert ['{'] + "c}" == "{c}";
  }

  /** As written, `a}<c>` fails with a lone `}` although `c` has a value. */
  lemma LoneCloseAsWritten()
    ensures UrirefAsWritten("a}<c>", map["c" := Text("x")]) == Failure(SingleClose)
  {
    PartsOfLoneClose();
    TemplateOfLoneClose();
    FormatLoneClose();
  }

  lemma TemplateOfLoneClose()
    ensures Template([Lit("a}"), Placeholder("c", None, None), Lit("")]) == "a}{c}"
  {
    var parts := [Lit("a}"), Placeholder("c", None, None), Lit("")];
    assert Template(parts[2..]) == "";
    assert Template(parts[1..]) == "{c}";
  }

  lemma FormatLoneClose()
    ensures Format("a}{c}", map["c" := Text("x")]) == Failure(SingleClose)
  {
    var args := map["c" := Text("x")];
    var f := "}{c}";
    assert f[0] == '}' && f[1] == '{';
    assert Format(f, args) == Failure(SingleClose);
    assert "a}{c}" == ['a'] + f;
    FormatPlain('a', f, args);
  }

  /** The escaped template gives `{x}` for `{<c>}`. */
  lemma BracedEscaped()
    ensures Uriref("{<c>}", map["c" := Text("x")]) == Success("{x}")
  {
    PartsOfBraced();
    FilledBraced();
    FilledWhenBound("{<c>}", map["c" := Text("x")], [Lit("{"), Placeholder("c", None, None), Lit("}")], "{x}");
  }

  lemma FilledBraced()
    ensures var p := [Lit("{"), Placeholder("c", None, None), Lit("}")];
            Variables(p) == ["c"] && Fill(p, map["c" := Text("x")]) == "{x}"
  {
    var p := [Lit("{"), Placeholder("c", None, None), Lit("}")];
    assert Variables(p[1..]) == ["c"] + Variables(p[2..]);
    assert Fill(p[2..], map["c" := Text("x")]) == "}";
  }

  /** The escaped template gives `a}x` for `a}<c>`. */
  lemma LoneCloseEscaped()
    ensures Uriref("a}<c>", map["c" := Text("x")]) == Success("a}x")
  {
    PartsOfLoneClose();
    FilledLoneClose();
    FilledWhenBound("a}<c>", map["c" := Text("x")], [Lit("a}"), Placeholder("c", None, None), Lit("")], "a}x");
  }

  lemma FilledLoneClose()
    ensures var p := [Lit("a}"), Placeholder("c", None, None), Lit("")];
            Variables(p) == ["c"] && Fill(p, map["c" := Text("x")]) == "a}x"
  {
    var p := [Lit("a}"), Placeholder("c", None, None), Lit("")];
    assert Variables(p[1..]) == ["c"] + Variables(p[2..]);
    assert Fill(p[2..], map["c" := Text("x")]) == "";
  }

  /** A rule whose variables all have values gives its filled template. */
  lemma FilledWhenBound(rule: string, args: map<string, Value>, parts: seq<Part>, out: string)
    requires RuleParts(rule) == parts && Fill(parts, args) == out
    requires forall n :: 0 <= n < |Variables(parts)| ==> Variables(parts)[n] in args
    ensures Uriref(rule, args) == Success(out)
  {
    UrirefFills(rule, args);
  }
}
