/** The identifier-template scanner of ldp/binding.py: `_uriref_rule_re` and
    `iter_rule_parts`, which cut a template such as `http://x/<c>#<c>` into literal
    pieces and `<converter(args):variable>` placeholders. */
module RuleSyntax {
  import opened Wrappers
  import opened Strings

  /** One item yielded by `iter_rule_parts`: a literal string, or the tuple
      `(variable, args, converter)` of a placeholder (`args` and `converter` are
      `None` when the regex group did not take part in the match). */
  datatype Part =
    | Lit(text: string)
    | Placeholder(variable: string, args: Option<string>, converter: Option<string>)

  predicate IsIdentStart(c: char) { 'a' <= c <= 'z' || 'A' <= c <= 'Z' || c == '_' }

  predicate IsIdentChar(c: char) { IsIdentStart(c) || '0' <= c <= '9' }

  /** `[a-zA-Z_][a-zA-Z0-9_]*` */
  predicate IsIdent(s: string)
  {
    |s| > 0 && IsIdentStart(s[0]) && forall i :: 0 <= i < |s| ==> IsIdentChar(s[i])
  }

  /** Length of the longest prefix of identifier characters. */
  function IdentRun(s: string): (n: nat)
    ensures n <= |s|
    ensures forall i :: 0 <= i < n ==> IsIdentChar(s[i])
    ensures n < |s| ==> !IsIdentChar(s[n])
  {
    if s == [] || !IsIdentChar(s[0]) then 0 else 1 + IdentRun(s[1..])
  }

  /** Length of the identifier `[a-zA-Z_][a-zA-Z0-9_]*` at the start of `s`
      (0 if there is none).  The regex backtracks only to shorter identifiers,
      which are then followed by an identifier character; since every use is
      followed by `(`, `:` or `>`, only this longest one can succeed. */
  function IdentLen(s: string): (n: nat)
    ensures n <= |s|
    ensures n > 0 ==> IsIdent(s[..n])
    ensures n < |s| && n > 0 ==> !IsIdentChar(s[n])
    ensures n == 0 && |s| > 0 ==> !IsIdentStart(s[0])
  {
    if |s| > 0 && IsIdentStart(s[0]) then IdentRun(s) else 0
  }

  lemma IdentLenAt(s: string, k: nat)
    requires 0 < k <= |s| && IsIdentStart(s[0]) && forall i :: 0 <= i < k ==> IsIdentChar(s[i])
    requires k < |s| ==> !IsIdentChar(s[k])
    ensures IdentLen(s) == k
  {
  }

  /** The placeholder found right after a `<`, and how many characters of the
      text after the `<` it took, the closing `>` included. */
  datatype Body = Body(part: Part, len: nat)

  /** `variable>` after `(...)` and `:`, starting at `j`: the variable name and
      the position just after the `>`. */
  function VariableAt(s: string, j: nat): (r: Option<(string, nat)>)
    requires j <= |s|
    ensures r.Some? ==> j < r.value.1 <= |s| && s[r.value.1 - 1] == '>'
                        && r.value.0 == s[j..r.value.1 - 1] && IsIdent(r.value.0)
  {
    var m := IdentLen(s[j..]);
    if m > 0 && j + m < |s| && s[j + m] == '>' then Some((s[j..j + m], j + m + 1)) else None
  }

  /** The lazy `\((?P<args>.*?)\)` followed by `:variable>`: the shortest
      argument text `s[n+1..j]` after which `):variable>` follows.  `.` does not
      match a line break, so the search stops at the first one. */
  function ArgsSearch(s: string, n: nat, j: nat): (r: Option<Body>)
    requires 0 < n < j <= |s| && s[n] == '('
    ensures r.Some? ==> n + 5 <= r.value.len <= |s| && r.value.part.Placeholder?
    decreases |s| - j
  {
    if j >= |s| then None
    else if s[j] == ')' && j + 1 < |s| && s[j + 1] == ':' && VariableAt(s, j + 2).Some? then
      var (v, e) := VariableAt(s, j + 2).value;
      Some(Body(Placeholder(v, Some(s[n + 1..j]), Some(s[..n])), e))
    else if s[j] == '\n' then None
    else ArgsSearch(s, n, j + 1)
  }

  /** What `_uriref_rule_re` matches after its `<`: `variable>`,
      `converter:variable>` or `converter(args):variable>`. */
  function MatchBody(s: string): (r: Option<Body>)
    ensures r.Some? ==> 2 <= r.value.len <= |s| && r.value.part.Placeholder?
  {
    var n := IdentLen(s);
    if n == 0 || n == |s| then None
    else if s[n] == '>' then Some(Body(Placeholder(s[..n], None, None), n + 1))
    else if s[n] == ':' then
      match VariableAt(s, n + 1)
      case Some((v, e)) => Some(Body(Placeholder(v, None, Some(s[..n])), e))
      case None => None
    else if s[n] == '(' then ArgsSearch(s, n, n + 1)
    else None
  }

  /** Index of the first `<`: `(?P<head>[^<]*)` is greedy and must be followed by `<`. */
  function HeadLen(s: string): (n: nat)
    ensures n <= |s|
    ensures '<' !in s[..n]
    ensures n < |s| ==> s[n] == '<'
  {
    RunWithout(s, '<')
  }

  /** One successful `re.match(_uriref_rule_re, rule)`: the head, the
      placeholder, and the tail group. */
  datatype Step = Step(head: string, part: Part, tail: string)

  function MatchRule(rule: string): (r: Option<Step>)
    ensures r.Some? ==> |r.value.tail| < |rule| && '<' !in r.value.head
                        && r.value.part.Placeholder?
  {
    var h := HeadLen(rule);
    if h == |rule| then None
    else
      match MatchBody(rule[h + 1..])
      case None => None
      case Some(b) =>
        var rest := rule[h + 1 + b.len..];
        // `(?P<tail>.*)` stops at the first line break
        Some(Step(rule[..h], b.part, rest[..RunWithout(rest, '\n')]))
  }

  /** Everything `iter_rule_parts(rule)` yields, in order. */
  function RuleParts(rule: string): (parts: seq<Part>)
    decreases |rule|
  {
    if rule == "" then [Lit("")]
    else
      match MatchRule(rule)
      case None => [Lit(rule)]
      case Some(st) =>
        (if st.head != "" then [Lit(st.head)] else []) + [st.part] + RuleParts(st.tail)
  }

  /** `iter_rule_parts`: the `while rule:` loop that repeatedly matches the
      template, emits the head (when non-empty) and the placeholder, and
      continues with the tail; the unparsed remainder is yielded last. */
  method IterRuleParts(rule: string) returns (parts: seq<Part>)
    ensures parts == RuleParts(rule)
  {
    parts := [];
    var rest := rule;
    while rest != ""
      invariant parts + RuleParts(rest) == RuleParts(rule)
      decreases |rest|
    {
      var m := MatchRule(rest);
      if m.None? {
        break;
      }
      var st := m.value;
      var head: seq<Part> := if st.head != "" then [Lit(st.head)] else [];
      UnfoldRuleParts(parts, rest);
      parts := parts + head + [st.part];
      rest := st.tail;
    }
    FinishRuleParts(parts, rest);
    parts := parts + [Lit(rest)];
  }

  lemma FinishRuleParts(acc: seq<Part>, rest: string)
    requires rest == "" || MatchRule(rest).None?
    ensures acc + RuleParts(rest) == acc + [Lit(rest)]
  {
  }

  lemma UnfoldRuleParts(acc: seq<Part>, rest: string)
    requires rest != "" && MatchRule(rest).Some?
    ensures var st := MatchRule(rest).value;
            var hd: seq<Part> := if st.head != "" then [Lit(st.head)] else [];
            acc + RuleParts(rest) == (acc + hd + [st.part]) + RuleParts(st.tail)
  {
  }

  /** How a placeholder is written in a template. */
  function RenderPart(p: Part): string
  {
    match p
    case Lit(t) => t
    case Placeholder(v, args, conv) =>
      match conv
      case None => "<" + v + ">"
      case Some(c) =>
        match args
        case None => "<" + c + ":" + v + ">"
        case Some(a) => "<" + c + "(" + a + "):" + v + ">"
  }

  function Render(parts: seq<Part>): string
  {
    if parts == [] then "" else RenderPart(parts[0]) + Render(parts[1..])
  }

  lemma RenderAppend(a: seq<Part>, b: seq<Part>)
    ensures Render(a + b) == Render(a) + Render(b)
  {
    if a == [] {
      assert a + b == b;
    } else {
      assert (a + b)[0] == a[0];
      assert (a + b)[1..] == a[1..] + b;
      RenderAppend(a[1..], b);
    }
  }

  /** A placeholder as the regex found it: identifier names, and arguments
      only together with a converter, never spanning a line break. */
  predicate WellFormed(p: Part)
  {
    p.Placeholder? ==>
      && IsIdent(p.variable)
      && (p.converter.Some? ==> IsIdent(p.converter.value))
      && (p.args.Some? ==> p.converter.Some? && '\n' !in p.args.value)
  }

  /** The text a successful body match consumed is the rendered placeholder. */
  lemma BodyRenders(s: string)
    requires MatchBody(s).Some?
    ensures "<" + s[..MatchBody(s).value.len] == RenderPart(MatchBody(s).value.part)
  {
    var n := IdentLen(s);
    var b := MatchBody(s).value;
    if s[n] == '>' {
      assert s[..b.len] == s[..n] + [s[n]];
    } else if s[n] == ':' {
      var (v, e) := VariableAt(s, n + 1).value;
      assert s[..e] == s[..n] + [s[n]] + s[n + 1..e - 1] + [s[e - 1]];
    } else {
      ArgsRenders(s, n, n + 1);
    }
  }

  /** A placeholder the body match finds is well formed. */
  lemma BodyWellFormed(s: string)
    requires MatchBody(s).Some?
    ensures WellFormed(MatchBody(s).value.part)
  {
    var n := IdentLen(s);
    if s[n] == '(' {
      ArgsWellFormed(s, n, n + 1);
    }
  }

  lemma {:induction false} ArgsRenders(s: string, n: nat, j: nat)
    requires 0 < n < j <= |s| && s[n] == '(' && IsIdent(s[..n])
    requires '\n' !in s[n + 1..j]
    requires ArgsSearch(s, n, j).Some?
    ensures "<" + s[..ArgsSearch(s, n, j).value.len] == RenderPart(ArgsSearch(s, n, j).value.part)
    decreases |s| - j
  {
    if s[j] == ')' && j + 1 < |s| && s[j + 1] == ':' && VariableAt(s, j + 2).Some? {
      ArgsFound(s, n, j);
    } else {
      assert s[n + 1..j + 1] == s[n + 1..j] + [s[j]];
      ArgsRenders(s, n, j + 1);
    }
  }

  lemma ArgsFound(s: string, n: nat, j: nat)
    requires 0 < n < j < |s| && s[n] == '(' && IsIdent(s[..n])
    requires '\n' !in s[n + 1..j]
    requires s[j] == ')' && j + 1 < |s| && s[j + 1] == ':' && VariableAt(s, j + 2).Some?
    ensures var r := VariableAt(s, j + 2).value;
            "<" + s[..r.1] == RenderPart(Placeholder(r.0, Some(s[n + 1..j]), Some(s[..n])))
  {
    var r := VariableAt(s, j + 2).value;
    ArgsText(s, n, j, r.1);
    assert RenderPart(Placeholder(r.0, Some(s[n + 1..j]), Some(s[..n])))
        == "<" + s[..n] + "(" + s[n + 1..j] + "):" + r.0 + ">";
  }

  lemma ArgsFoundWellFormed(s: string, n: nat, j: nat)
    requires 0 < n < j < |s| && s[n] == '(' && IsIdent(s[..n])
    requires '\n' !in s[n + 1..j]
    requires s[j] == ')' && j + 1 < |s| && s[j + 1] == ':' && VariableAt(s, j + 2).Some?
    ensures WellFormed(Placeholder(VariableAt(s, j + 2).value.0, Some(s[n + 1..j]), Some(s[..n])))
  {
  }

  /** The text of `converter(args):variable>`, cut at its delimiters. */
  lemma ArgsText(s: string, n: nat, j: nat, e: nat)
    requires 0 < n < j && j + 2 < e <= |s|
    requires s[n] == '(' && s[j] == ')' && s[j + 1] == ':' && s[e - 1] == '>'
    ensures s[..e] == s[..n] + "(" + s[n + 1..j] + "):" + s[j + 2..e - 1] + ">"
  {
    assert s[..n + 1] == s[..n] + "(";
    assert s[..j] == s[..n + 1] + s[n + 1..j];
    assert s[..j + 2] == s[..j] + "):";
    assert s[..e - 1] == s[..j + 2] + s[j + 2..e - 1];
    assert s[..e] == s[..e - 1] + ">";
  }

  /** One match step loses nothing when the template has no line break. */
  lemma StepRenders(rule: string)
    requires MatchRule(rule).Some? && '\n' !in rule
    ensures rule == MatchRule(rule).value.head + RenderPart(MatchRule(rule).value.part) + MatchRule(rule).value.tail
  {
    var h := HeadLen(rule);
    var s := rule[h + 1..];
    BodyRenders(s);
    TailIsRest(rule);
    Assemble(rule, h, MatchBody(s).value.len, MatchBody(s).value.part);
  }

  lemma Assemble(rule: string, h: nat, len: nat, p: Part)
    requires h < |rule| && rule[h] == '<' && len <= |rule| - h - 1
    requires "<" + rule[h + 1..][..len] == RenderPart(p)
    ensures rule == rule[..h] + RenderPart(p) + rule[h + 1..][len..]
  {
    var s := rule[h + 1..];
    var pre, mid, rest := rule[..h], s[..len], s[len..];
    assert rule == pre + [rule[h]] + s;
    assert s == mid + rest;
    SplitThree(rule, pre, "<", s, mid, rest);
  }

  /** Without a line break the tail group takes everything after the `>`. */
  lemma TailIsRest(rule: string)
    requires MatchRule(rule).Some? && '\n' !in rule
    ensures var h := HeadLen(rule);
            var s := rule[h + 1..];
            MatchBody(s).Some? &&
            MatchRule(rule).value == Step(rule[..h], MatchBody(s).value.part, s[MatchBody(s).value.len..])
  {
    var h := HeadLen(rule);
    var s := rule[h + 1..];
    var b := MatchBody(s).value;
    var rest := rule[h + 1 + b.len..];
    assert rest == s[b.len..];
    assert '\n' !in rest by {
      forall i | 0 <= i < |rest| ensures rest[i] != '\n' {
        assert rest[i] == rule[h + 1 + b.len + i];
      }
    }
    NoBreakRun(rest);
  }

  lemma SplitThree(r: string, pre: string, lt: string, s: string, mid: string, rest: string)
    requires r == pre + lt + s && s == mid + rest
    ensures r == pre + (lt + mid) + rest
  {
    assert pre + lt + (mid + rest) == pre + (lt + mid) + rest;
  }

  lemma NoBreakRun(rest: string)
    requires '\n' !in rest
    ensures rest[..RunWithout(rest, '\n')] == rest
  {
  }

  /** The literal a match step yields before its placeholder, if any. */
  function HeadParts(head: string): (hd: seq<Part>)
    ensures |hd| <= 1 && (hd != [] <==> head != "") && (hd != [] ==> hd[0] == Lit(head))
  {
    if head != "" then [Lit(head)] else []
  }

  /** One step of `iter_rule_parts`. */
  lemma RulePartsStep(rule: string)
    requires rule != "" && MatchRule(rule).Some?
    ensures RuleParts(rule) == HeadParts(MatchRule(rule).value.head) + [MatchRule(rule).value.part]
                               + RuleParts(MatchRule(rule).value.tail)
  {
  }

  /** The tail of a match step is part of the template. */
  lemma TailNoBreak(rule: string)
    requires MatchRule(rule).Some? && '\n' !in rule
    ensures '\n' !in MatchRule(rule).value.tail
  {
    var t := MatchRule(rule).value.tail;
    StepRenders(rule);
    assert forall i :: 0 <= i < |t| ==> t[i] in rule;
  }

  /** Round trip: re-rendering the yielded parts gives back any template that
      has no line break (after a line break the tail group stops, and the rest
      of the template is dropped). */
  lemma {:induction false} RenderRuleParts(rule: string)
    requires '\n' !in rule
    ensures Render(RuleParts(rule)) == rule
    decreases |rule|
  {
    if rule != "" && MatchRule(rule).Some? {
      var st := MatchRule(rule).value;
      var hd := HeadParts(st.head);
      RulePartsStep(rule);
      StepRenders(rule);
      TailNoBreak(rule);
      RenderRuleParts(st.tail);
      RenderAppend(hd + [st.part], RuleParts(st.tail));
      RenderAppend(hd, [st.part]);
      assert Render(hd) == st.head;
      assert Render([st.part]) == RenderPart(st.part);
    }
  }

  /** The shape of what `iter_rule_parts` yields: the last item is always the
      remainder string (possibly empty); every earlier literal is non-empty,
      contains no `<`, and is directly followed by a placeholder; every
      placeholder is well formed. */
  lemma RulePartsShape(rule: string)
    ensures var p := RuleParts(rule);
            && |p| >= 1 && p[|p| - 1].Lit?
            && (forall i :: 0 <= i < |p| - 1 && p[i].Lit? ==>
                  p[i].text != "" && '<' !in p[i].text && p[i + 1].Placeholder?)
            && (forall i :: 0 <= i < |p| ==> WellFormed(p[i]))
  {
    PartsLits(rule);
    PartsWellFormed(rule);
  }

  lemma {:induction false} PartsLits(rule: string)
    ensures var p := RuleParts(rule);
            && |p| >= 1 && p[|p| - 1].Lit?
            && (forall i :: 0 <= i < |p| - 1 && p[i].Lit? ==>
                  p[i].text != "" && '<' !in p[i].text && p[i + 1].Placeholder?)
    decreases |rule|
  {
    if rule != "" && MatchRule(rule).Some? {
      var st := MatchRule(rule).value;
      var hd := HeadParts(st.head);
      var tl := RuleParts(st.tail);
      RulePartsStep(rule);
      PartsLits(st.tail);
      var p := hd + [st.part] + tl;
      assert p[|p| - 1] == tl[|tl| - 1];
      forall i | 0 <= i < |p| - 1 && p[i].Lit?
        ensures p[i].text != "" && '<' !in p[i].text && p[i + 1].Placeholder?
      {
        if i < |hd| {
          assert p[i] == Lit(st.head) && p[i + 1] == st.part;
        } else {
          assert i != |hd|;
          assert p[i] == tl[i - |hd| - 1] && p[i + 1] == tl[i - |hd|];
        }
      }
    }
  }

  lemma {:induction false} PartsWellFormed(rule: string)
    ensures forall i :: 0 <= i < |RuleParts(rule)| ==> WellFormed(RuleParts(rule)[i])
    decreases |rule|
  {
    if rule != "" && MatchRule(rule).Some? {
      var st := MatchRule(rule).value;
      var hd := HeadParts(st.head);
      var tl := RuleParts(st.tail);
      RulePartsStep(rule);
      PartsWellFormed(st.tail);
      MatchRuleWellFormed(rule);
      var p := hd + [st.part] + tl;
      forall i | 0 <= i < |p|
        ensures WellFormed(p[i])
      {
        if |hd| < i {
          assert p[i] == tl[i - |hd| - 1];
        }
      }
    }
  }

  lemma MatchRuleWellFormed(rule: string)
    requires MatchRule(rule).Some?
    ensures WellFormed(MatchRule(rule).value.part)
  {
    var h := HeadLen(rule);
    BodyWellFormed(rule[h + 1..]);
  }

  lemma {:induction false} ArgsWellFormed(s: string, n: nat, j: nat)
    requires 0 < n < j <= |s| && s[n] == '(' && IsIdent(s[..n])
    requires '\n' !in s[n + 1..j]
    requires ArgsSearch(s, n, j).Some?
    ensures WellFormed(ArgsSearch(s, n, j).value.part)
    decreases |s| - j
  {
    if s[j] == ')' && j + 1 < |s| && s[j + 1] == ':' && VariableAt(s, j + 2).Some? {
      ArgsFoundWellFormed(s, n, j);
    } else {
      assert s[n + 1..j + 1] == s[n + 1..j] + [s[j]];
      ArgsWellFormed(s, n, j + 1);
    }
  }

  /** The variable names of the placeholders, in template order. */
  function Variables(parts: seq<Part>): (vs: seq<string>)
    ensures |vs| <= |parts|
  {
    if parts == [] then []
    else (if parts[0].Placeholder? then [parts[0].variable] else []) + Variables(parts[1..])
  }

  lemma {:induction false} VariablesAppend(a: seq<Part>, b: seq<Part>)
    ensures Variables(a + b) == Variables(a) + Variables(b)
    decreases |a|
  {
    if a == [] {
      assert a + b == b;
    } else {
      assert (a + b)[0] == a[0];
      assert (a + b)[1..] == a[1..] + b;
      VariablesAppend(a[1..], b);
    }
  }
}
