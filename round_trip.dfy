/** Reverse lookup undoes `uriref`: with one binding registered,
    `endpoint_for(uriref(**v))` gives back the binding's endpoint and the
    values of its variables (ldp/binding.py `uriref`, `parsed_rule`;
    ldp/helpers.py `endpoint_for`).

    It holds when
    - every value is accepted by its group's regex,
    - no value holds a character that occurs in the literal text of the
      template (with werkzeug's default converters, whose widened regex
      excludes `/` and `<`, this mostly means the literal separators), and
    - every placeholder is followed by non-empty literal text, or is the last
      one, followed by nothing, and has a greedy regex (a lazy last group
      would stop after the shortest text its regex accepts).

    The argument counts literal characters: a match of a pattern consumes
    at least as many of them as the pattern's literal text holds, while the
    identifier has exactly that many, so no group can swallow one. */
module RoundTrip {
  import opened Wrappers
  import opened Values
  import opened RuleSyntax
  import opened UriTemplate
  import opened Bindings
  import opened ReverseLookup

  /** Text values, as keyword arguments of `uriref`. */
  function TextArgs(vals: map<string, string>): map<string, Value>
  {
    map k | k in vals :: Text(vals[k])
  }

  /** The identifier a template gives for text values. */
  function FillText(parts: seq<Part>, vals: map<string, string>): string
  {
    if parts == [] then ""
    else
      (match parts[0]
       case Lit(t) => t
       case Placeholder(v, _, _) => if v in vals then vals[v] else "") + FillText(parts[1..], vals)
  }

  lemma {:induction false} FillTextIsFill(parts: seq<Part>, vals: map<string, string>)
    ensures Fill(parts, TextArgs(vals)) == FillText(parts, vals)
    decreases |parts|
  {
    if parts != [] {
      FillTextIsFill(parts[1..], vals);
    }
  }

  /** The pattern of a suffix of the parts, `n` placeholders coming before it. */
  function TokensFrom(parts: seq<Part>, n: nat, table: map<string, Converter>): seq<Token>
    requires "default" in table
  {
    if parts == [] then []
    else [TokenFor(parts[0], n, table)] + TokensFrom(parts[1..], if parts[0].Placeholder? then n + 1 else n, table)
  }

  lemma {:induction false} TokensFromLength(parts: seq<Part>, n: nat, table: map<string, Converter>)
    requires "default" in table
    ensures |TokensFrom(parts, n, table)| == |parts|
    decreases |parts|
  {
    if parts != [] {
      TokensFromLength(parts[1..], if parts[0].Placeholder? then n + 1 else n, table);
    }
  }

  lemma TokensFromAt(parts: seq<Part>, n: nat, table: map<string, Converter>)
    requires "default" in table
    ensures |TokensFrom(parts, n, table)| == |parts|
    ensures forall j :: 0 <= j < |parts| ==>
              TokensFrom(parts, n, table)[j] == TokenFor(parts[j], n + |Variables(parts[..j])|, table)
  {
    TokensFromLength(parts, n, table);
    forall j | 0 <= j < |parts|
      ensures TokensFrom(parts, n, table)[j] == TokenFor(parts[j], n + |Variables(parts[..j])|, table)
    {
      TokenAt(parts, n, table, j);
    }
  }

  /** The token at position `j` of a suffix's pattern is the `j`-th part's,
      numbered after the placeholders before it. */
  lemma {:induction false} TokenAt(parts: seq<Part>, n: nat, table: map<string, Converter>, j: nat)
    requires "default" in table && j < |parts|
    ensures |TokensFrom(parts, n, table)| == |parts|
    ensures TokensFrom(parts, n, table)[j] == TokenFor(parts[j], n + |Variables(parts[..j])|, table)
    decreases j
  {
    TokensFromLength(parts, n, table);
    if j == 0 {
      TokensFromHead(parts, n, table);
    } else {
      var m := if parts[0].Placeholder? then n + 1 else n;
      TokenAt(parts[1..], m, table, j - 1);
      TokensFromTail(parts, n, m, table, j);
    }
  }

  /** Position 0 of a suffix's pattern is its first part's token. */
  lemma TokensFromHead(parts: seq<Part>, n: nat, table: map<string, Converter>)
    requires "default" in table && parts != []
    ensures TokensFrom(parts, n, table)[0] == TokenFor(parts[0], n + |Variables(parts[..0])|, table)
  {
    assert parts[..0] == [];
  }

  /** Position `j > 0` of a suffix's pattern is position `j - 1` of the next
      suffix's. */
  lemma TokensFromTail(parts: seq<Part>, n: nat, m: nat, table: map<string, Converter>, j: nat)
    requires "default" in table && 0 < j < |parts|
    requires m == if parts[0].Placeholder? then n + 1 else n
    requires |TokensFrom(parts[1..], m, table)| == |parts| - 1
    requires TokensFrom(parts[1..], m, table)[j - 1]
             == TokenFor(parts[1..][j - 1], m + |Variables(parts[1..][..j - 1])|, table)
    ensures TokensFrom(parts, n, table)[j] == TokenFor(parts[j], n + |Variables(parts[..j])|, table)
  {
    assert TokensFrom(parts, n, table)[j] == TokensFrom(parts[1..], m, table)[j - 1];
    assert parts[j] == parts[1..][j - 1];
    VariablesShift(parts, j);
  }


  lemma VariablesShift(parts: seq<Part>, j: nat)
    requires 0 < j <= |parts|
    ensures |Variables(parts[..j])| == (if parts[0].Placeholder? then 1 else 0) + |Variables(parts[1..][..j - 1])|
  {
    assert parts[..j] == [parts[0]] + parts[1..][..j - 1];
    VariablesAppend([parts[0]], parts[1..][..j - 1]);
  }

  /** The compiled pattern read from left to right. */
  lemma PatternFrom(parts: seq<Part>, table: map<string, Converter>)
    requires "default" in table
    ensures Pattern(parts, table) == TokensFrom(parts, 0, table)
  {
    PatternTokens(parts, table);
    TokensFromAt(parts, 0, table);
  }

  /** The captures the round trip expects: group `id{n+i}` holds the value of
      the `i`-th placeholder of the suffix. */
  function Caps(parts: seq<Part>, n: nat, vals: map<string, string>): seq<(string, string)>
  {
    if parts == [] then []
    else if parts[0].Placeholder? then
      [(GroupId(n), if parts[0].variable in vals then vals[parts[0].variable] else "")]
        + Caps(parts[1..], n + 1, vals)
    else Caps(parts[1..], n, vals)
  }

  lemma {:induction false} CapsAt(parts: seq<Part>, n: nat, vals: map<string, string>)
    requires forall v :: v in Variables(parts) ==> v in vals
    ensures |Caps(parts, n, vals)| == |Variables(parts)|
    ensures forall i :: 0 <= i < |Variables(parts)| ==>
              Caps(parts, n, vals)[i] == (GroupId(n + i), vals[Variables(parts)[i]])
    decreases |parts|
  {
    if parts != [] {
      VariablesAppend([parts[0]], parts[1..]);
      assert parts == [parts[0]] + parts[1..];
      if parts[0].Placeholder? {
        assert Variables(parts) == [parts[0].variable] + Variables(parts[1..]);
        CapsAt(parts[1..], n + 1, vals);
      } else {
        assert Variables(parts) == Variables(parts[1..]);
        CapsAt(parts[1..], n, vals);
      }
    }
  }

  // ---------------------------------------------------------------------------
  // Counting literal characters

  /** How many characters of `s` belong to `lits`. */
  function Count(s: string, lits: set<char>): nat
  {
    if s == [] then 0 else (if s[0] in lits then 1 else 0) + Count(s[1..], lits)
  }

  lemma {:induction false} CountAppend(a: string, b: string, lits: set<char>)
    ensures Count(a + b, lits) == Count(a, lits) + Count(b, lits)
    decreases |a|
  {
    if a == [] {
      assert a + b == b;
    } else {
      CountAppend(a[1..], b, lits);
      assert (a + b)[1..] == a[1..] + b;
    }
  }

  lemma {:induction false} CountAll(s: string, lits: set<char>)
    requires forall c :: c in s ==> c in lits
    ensures Count(s, lits) == |s|
    decreases |s|
  {
    if s != [] {
      CountAll(s[1..], lits);
    }
  }

  lemma {:induction false} CountNone(s: string, lits: set<char>)
    requires forall c :: c in s ==> c !in lits
    ensures Count(s, lits) == 0
    decreases |s|
  {
    if s != [] {
      CountNone(s[1..], lits);
    }
  }

  /** The length of the literal text of a pattern. */
  function LitLen(toks: seq<Token>): nat
  {
    if toks == [] then 0 else (if toks[0].TLit? then |toks[0].text| else 0) + LitLen(toks[1..])
  }

  predicate LitsIn(toks: seq<Token>, lits: set<char>)
  {
    forall i, c :: 0 <= i < |toks| && toks[i].TLit? && c in toks[i].text ==> c in lits
  }

  /** A match consumes at least the pattern's literal text. */
  lemma {:induction false} MatchConsumes(eng: Engine, toks: seq<Token>, s: string, lits: set<char>)
    requires LitsIn(toks, lits)
    requires MatchTokens(eng, toks, s).Some?
    ensures Count(s, lits) >= LitLen(toks)
    decreases |toks|, 1
  {
    if toks != [] {
      assert LitsIn(toks[1..], lits) by {
        forall i, c | 0 <= i < |toks[1..]| && toks[1..][i].TLit? && c in toks[1..][i].text
          ensures c in lits
        {
          assert toks[1..][i] == toks[i + 1];
        }
      }
      match toks[0]
      case TLit(t) =>
        MatchConsumes(eng, toks[1..], s[|t|..], lits);
        assert s == t + s[|t|..];
        CountAppend(t, s[|t|..], lits);
        CountAll(t, lits);
      case TGroup(id, rx) =>
        TryGroupConsumes(eng, id, rx, toks[1..], s, Order(eng.lazy(rx), |s|), lits);
    }
  }

  lemma {:induction false} TryGroupConsumes(eng: Engine, id: string, rx: string, rest: seq<Token>, s: string,
                                            cands: seq<nat>, lits: set<char>)
    requires forall i :: 0 <= i < |cands| ==> cands[i] <= |s|
    requires LitsIn(rest, lits)
    requires TryGroup(eng, id, rx, rest, s, cands).Some?
    ensures Count(s, lits) >= LitLen(rest)
    decreases |rest| + 1, 0, |cands|
  {
    var j := cands[0];
    if eng.accepts(rx, s[..j]) && MatchTokens(eng, rest, s[j..]).Some? {
      MatchConsumes(eng, rest, s[j..], lits);
      assert s == s[..j] + s[j..];
      CountAppend(s[..j], s[j..], lits);
    } else {
      TryGroupConsumes(eng, id, rx, rest, s, cands[1..], lits);
    }
  }

  // ---------------------------------------------------------------------------
  // The conditions and the main induction

  /** The regex of a placeholder's group. */
  function RegexOf(p: Part, table: map<string, Converter>): string
    requires "default" in table && p.Placeholder?
  {
    Widen(ConverterFor(table, p.converter).regex)
  }

  /** Part `i` is a placeholder followed by non-empty literal text, or the
      last placeholder, with a greedy regex and nothing after it. */
  predicate Separated(eng: Engine, parts: seq<Part>, i: nat, table: map<string, Converter>)
    requires "default" in table && i < |parts| && parts[i].Placeholder?
  {
    || (i + 1 < |parts| && parts[i + 1].Lit? && parts[i + 1].text != [])
    || (!eng.lazy(RegexOf(parts[i], table)) && FillText(parts[i + 1..], map[]) == ""
        && Variables(parts[i + 1..]) == [])
  }

  /** The conditions of the round trip, for literal characters `lits`. */
  predicate Good(eng: Engine, parts: seq<Part>, table: map<string, Converter>, vals: map<string, string>, lits: set<char>)
    requires "default" in table
  {
    forall i :: 0 <= i < |parts| ==>
      match parts[i]
      case Lit(t) => forall c :: c in t ==> c in lits
      case Placeholder(v, _, _) =>
        && v in vals
        && eng.accepts(RegexOf(parts[i], table), vals[v])
        && (forall c :: c in vals[v] ==> c !in lits)
        && Separated(eng, parts, i, table)
  }

  lemma GoodTail(eng: Engine, parts: seq<Part>, table: map<string, Converter>, vals: map<string, string>, lits: set<char>)
    requires "default" in table && parts != [] && Good(eng, parts, table, vals, lits)
    ensures Good(eng, parts[1..], table, vals, lits)
  {
    forall i | 0 <= i < |parts[1..]| && parts[1..][i].Placeholder?
      ensures Separated(eng, parts[1..], i, table)
    {
      assert parts[1..][i] == parts[i + 1];
      assert Separated(eng, parts, i + 1, table);
      assert parts[1..][i + 1..] == parts[i + 2..];
    }
  }

  /** Under the conditions the literal text of the pattern uses only `lits`. */
  lemma GoodLits(eng: Engine, parts: seq<Part>, n: nat, table: map<string, Converter>,
                 vals: map<string, string>, lits: set<char>)
    requires "default" in table && Good(eng, parts, table, vals, lits)
    ensures LitsIn(TokensFrom(parts, n, table), lits)
  {
    TokensFromAt(parts, n, table);
    var toks := TokensFrom(parts, n, table);
    forall i, c | 0 <= i < |toks| && toks[i].TLit? && c in toks[i].text
      ensures c in lits
    {
      assert parts[i].Lit?;
    }
  }

  /** The identifier holds exactly as many literal characters as the pattern's
      literal text. */
  lemma {:induction false} FillCount(eng: Engine, parts: seq<Part>, n: nat, table: map<string, Converter>,
                                     vals: map<string, string>, lits: set<char>)
    requires "default" in table && Good(eng, parts, table, vals, lits)
    ensures Count(FillText(parts, vals), lits) == LitLen(TokensFrom(parts, n, table))
    decreases |parts|
  {
    if parts != [] {
      GoodTail(eng, parts, table, vals, lits);
      var m := if parts[0].Placeholder? then n + 1 else n;
      FillCount(eng, parts[1..], m, table, vals, lits);
      var head := match parts[0] case Lit(t) => t case Placeholder(v, _, _) => vals[v];
      assert FillText(parts, vals) == head + FillText(parts[1..], vals);
      CountAppend(head, FillText(parts[1..], vals), lits);
      assert TokensFrom(parts, n, table)[1..] == TokensFrom(parts[1..], m, table);
      match parts[0] {
        case Lit(t) =>
          CountAll(t, lits);
        case Placeholder(v, _, _) =>
          CountNone(vals[v], lits);
      }
    }
  }

  /** The main induction: the pattern of a suffix matches that suffix's part
      of the identifier, each group capturing its own value. */
  lemma {:induction false} MatchFill(eng: Engine, parts: seq<Part>, n: nat, table: map<string, Converter>,
                                     vals: map<string, string>, lits: set<char>)
    requires "default" in table && Good(eng, parts, table, vals, lits)
    ensures MatchTokens(eng, TokensFrom(parts, n, table), FillText(parts, vals)) == Some(Caps(parts, n, vals))
    decreases |parts|
  {
    if parts != [] {
      GoodTail(eng, parts, table, vals, lits);
      var toks := TokensFrom(parts, n, table);
      var s := FillText(parts, vals);
      match parts[0] {
        case Lit(t) =>
          MatchFill(eng, parts[1..], n, table, vals, lits);
          assert s == t + FillText(parts[1..], vals);
          assert s[..|t|] == t && s[|t|..] == FillText(parts[1..], vals);
        case Placeholder(v, _, _) =>
          MatchFill(eng, parts[1..], n + 1, table, vals, lits);
          PlaceholderMatches(eng, parts, n, table, vals, lits);
      }
    }
  }

  /** The step of the induction at a placeholder: the group can only end where
      its value ends. */
  lemma PlaceholderMatches(eng: Engine, parts: seq<Part>, n: nat, table: map<string, Converter>,
                           vals: map<string, string>, lits: set<char>)
    requires "default" in table && Good(eng, parts, table, vals, lits)
    requires parts != [] && parts[0].Placeholder?
    requires MatchTokens(eng, TokensFrom(parts[1..], n + 1, table), FillText(parts[1..], vals))
             == Some(Caps(parts[1..], n + 1, vals))
    ensures MatchTokens(eng, TokensFrom(parts, n, table), FillText(parts, vals)) == Some(Caps(parts, n, vals))
  {
    GoodTail(eng, parts, table, vals, lits);
    var v := parts[0].variable;
    var rx := RegexOf(parts[0], table);
    var value := vals[v];
    var after := FillText(parts[1..], vals);
    var rest := TokensFrom(parts[1..], n + 1, table);
    var s := FillText(parts, vals);
    assert s == value + after;
    assert TokensFrom(parts, n, table) == [TGroup(GroupId(n), rx)] + rest;
    var cands := Order(eng.lazy(rx), |s|);
    assert s[..|value|] == value && s[|value|..] == after;
    assert Works(eng, rx, rest, s, |value|);
    assert Separated(eng, parts, 0, table);
    if parts[1..] != [] && parts[1].Lit? && parts[1].text != [] {
      forall i | 0 <= i < |cands| && cands[i] != |value|
        ensures !Works(eng, rx, rest, s, cands[i])
      {
        OtherEndsFail(eng, parts, n, table, vals, lits, cands[i]);
      }
      TryGroupUnique(eng, GroupId(n), rx, rest, s, cands, |value|);
    } else {
      assert parts[1..] == parts[0 + 1..];
      EmptyAfter(parts[1..], vals);
      assert after == "";
      TryGroupFirst(eng, GroupId(n), rx, rest, s, cands);
    }
  }

  /** Nothing but empty text after a group: the identifier ends with its value. */
  lemma {:induction false} EmptyAfter(parts: seq<Part>, vals: map<string, string>)
    requires FillText(parts, map[]) == "" && Variables(parts) == []
    ensures FillText(parts, vals) == ""
    decreases |parts|
  {
    if parts != [] {
      VariablesAppend([parts[0]], parts[1..]);
      assert parts == [parts[0]] + parts[1..];
      assert parts[0].Lit?;
      EmptyAfter(parts[1..], vals);
    }
  }

  /** A group followed by non-empty literal text cannot end before its value
      ends (the next character is not literal) nor after it (too few literal
      characters would be left). */
  lemma OtherEndsFail(eng: Engine, parts: seq<Part>, n: nat, table: map<string, Converter>,
                      vals: map<string, string>, lits: set<char>, j: nat)
    requires "default" in table && Good(eng, parts, table, vals, lits)
    requires |parts| > 1 && parts[0].Placeholder? && parts[1].Lit? && parts[1].text != []
    requires j <= |FillText(parts, vals)| && j != |vals[parts[0].variable]|
    ensures !Works(eng, RegexOf(parts[0], table), TokensFrom(parts[1..], n + 1, table), FillText(parts, vals), j)
  {
    GoodTail(eng, parts, table, vals, lits);
    var value := vals[parts[0].variable];
    var t := parts[1].text;
    var after := FillText(parts[1..], vals);
    var rest := TokensFrom(parts[1..], n + 1, table);
    var s := FillText(parts, vals);
    assert s == value + after;
    assert after == t + FillText(parts[2..], vals);
    assert t[0] in lits by { assert parts[1].Lit?; }
    if j < |value| {
      assert s[j] == value[j] && value[j] !in lits;
      assert rest[0] == TLit(t);
      assert MatchTokens(eng, rest, s[j..]).None? by {
        if |t| <= |s[j..]| {
          assert s[j..][..|t|][0] == s[j] != t[0];
        }
      }
    } else {
      var d := j - |value|;
      assert s[j..] == after[d..];
      assert after == after[..d] + after[d..];
      CountAppend(after[..d], after[d..], lits);
      assert after[..d] == [after[0]] + after[..d][1..];
      CountAppend([after[0]], after[..d][1..], lits);
      FillCount(eng, parts[1..], n + 1, table, vals, lits);
      GoodLits(eng, parts[1..], n + 1, table, vals, lits);
      if MatchTokens(eng, rest, s[j..]).Some? {
        MatchConsumes(eng, rest, s[j..], lits);
      }
    }
  }

  // ---------------------------------------------------------------------------
  // The round trip

  /** The characters of the literal text of a template. */
  function LitChars(parts: seq<Part>): set<char>
  {
    if parts == [] then {}
    else (if parts[0].Lit? then set c | c in parts[0].text else {}) + LitChars(parts[1..])
  }

  lemma {:induction false} LitCharsHas(parts: seq<Part>, i: nat)
    requires i < |parts| && parts[i].Lit?
    ensures forall c :: c in parts[i].text ==> c in LitChars(parts)
    decreases i
  {
    if i > 0 {
      LitCharsHas(parts[1..], i - 1);
    }
  }

  /** The conditions, on a binding and its values. */
  predicate Invertible(eng: Engine, b: Binding, table: map<string, Converter>, vals: map<string, string>)
    requires "default" in table
  {
    var parts := RuleParts(b.rule);
    forall i :: 0 <= i < |parts| && parts[i].Placeholder? ==>
      var v := parts[i].variable;
      && v in vals
      && eng.accepts(RegexOf(parts[i], table), vals[v])
      && (forall c :: c in vals[v] ==> c !in LitChars(parts))
      && Separated(eng, parts, i, table)
  }

  /** With one binding registered, looking up the identifier `uriref` gives
      back the binding's endpoint and the value of each of its variables. */
  lemma RoundTrip(eng: Engine, b: Binding, table: map<string, Converter>, vals: map<string, string>)
    requires "default" in table
    requires Invertible(eng, b, table, vals)
    ensures Uriref(b.rule, TextArgs(vals)).Success?
    ensures Lookup(eng, [b], table, Uriref(b.rule, TextArgs(vals)).value)
            == Some((b.endpoint, map v | v in ArgumentsOf(b) && v in vals :: vals[v]))
  {
    var parts := RuleParts(b.rule);
    var lits := LitChars(parts);
    InvertibleGood(eng, b, table, vals);
    VariablesDefined(parts, vals);
    UrirefFills(b.rule, TextArgs(vals));
    FillTextIsFill(parts, vals);
    var ref := Uriref(b.rule, TextArgs(vals)).value;
    assert ref == FillText(parts, vals);
    PatternFrom(parts, table);
    MatchFill(eng, parts, 0, table, vals, lits);
    assert MatchTokens(eng, PatternOf(b, table), ref) == Some(Caps(parts, 0, vals));
    CapturesGiveValues(eng, b, table, vals, ref);
  }

  /** The round trip through the source's own `uriref`, for a template whose
      literal text holds no brace. */
  lemma RoundTripAsWritten(eng: Engine, b: Binding, table: map<string, Converter>, vals: map<string, string>)
    requires "default" in table
    requires Invertible(eng, b, table, vals) && BraceFree(RuleParts(b.rule))
    ensures UrirefAsWritten(b.rule, TextArgs(vals)).Success?
    ensures Lookup(eng, [b], table, UrirefAsWritten(b.rule, TextArgs(vals)).value)
            == Some((b.endpoint, map v | v in ArgumentsOf(b) && v in vals :: vals[v]))
  {
    UrirefAsWrittenAgrees(b.rule, TextArgs(vals));
    RoundTrip(eng, b, table, vals);
  }

  lemma InvertibleGood(eng: Engine, b: Binding, table: map<string, Converter>, vals: map<string, string>)
    requires "default" in table
    requires Invertible(eng, b, table, vals)
    ensures Good(eng, RuleParts(b.rule), table, vals, LitChars(RuleParts(b.rule)))
  {
    var parts := RuleParts(b.rule);
    forall i | 0 <= i < |parts| && parts[i].Lit?
      ensures forall c :: c in parts[i].text ==> c in LitChars(parts)
    {
      LitCharsHas(parts, i);
    }
  }

  /** The expected captures give back the values: no variable captured two
      different values, and each variable holds its own. */
  lemma CapturesGiveValues(eng: Engine, b: Binding, table: map<string, Converter>, vals: map<string, string>, ref: string)
    requires "default" in table
    requires forall v :: v in Variables(RuleParts(b.rule)) ==> v in vals
    requires MatchTokens(eng, PatternOf(b, table), ref) == Some(Caps(RuleParts(b.rule), 0, vals))
    ensures TryBinding(eng, b, table, ref) == Some(map v | v in ArgumentsOf(b) && v in vals :: vals[v])
  {
    var parts := RuleParts(b.rule);
    var vs := Variables(parts);
    var caps := Caps(parts, 0, vals);
    var argmap := ArgMap(parts);
    CapsNamed(parts, vals);
    TryBindingMeaning(eng, b, table, ref);
    NamedCapsAgree(argmap, caps, vs, vals);
    var r := TryBinding(eng, b, table, ref).value;
    ArgumentsAreVariables(parts);
    GatheredIsVals(argmap, caps, vs, vals, r, ArgumentsOf(b));
  }

  /** Captures named after the variables they hold never disagree. */
  lemma NamedCapsAgree(argmap: map<string, string>, caps: seq<(string, string)>, vs: seq<string>, vals: map<string, string>)
    requires |caps| == |vs|
    requires forall i :: 0 <= i < |caps| ==>
               caps[i].0 in argmap && argmap[caps[i].0] == vs[i] && vs[i] in vals && caps[i].1 == vals[vs[i]]
    ensures !Conflict(argmap, caps)
  {
  }

  /** Arguments gathered from such captures are the values of the variables. */
  lemma GatheredIsVals(argmap: map<string, string>, caps: seq<(string, string)>, vs: seq<string>,
                       vals: map<string, string>, r: map<string, string>, names: set<string>)
    requires |caps| == |vs|
    requires forall i :: 0 <= i < |caps| ==>
               caps[i].0 in argmap && argmap[caps[i].0] == vs[i] && vs[i] in vals && caps[i].1 == vals[vs[i]]
    requires forall i :: 0 <= i < |caps| ==> argmap[caps[i].0] in r && r[argmap[caps[i].0]] == caps[i].1
    requires forall name :: name in r <==> exists i :: 0 <= i < |caps| && argmap[caps[i].0] == name
    requires names == set n | 0 <= n < |vs| :: vs[n]
    ensures r == map v | v in names && v in vals :: vals[v]
  {
    var target := map v | v in names && v in vals :: vals[v];
    forall name | name in r
      ensures name in target && r[name] == target[name]
    {
      var i :| 0 <= i < |caps| && argmap[caps[i].0] == name;
    }
    forall name | name in target
      ensures name in r
    {
      var i :| 0 <= i < |vs| && vs[i] == name;
      assert argmap[caps[i].0] == name;
    }
  }


  /** The `i`-th expected capture is the group of the `i`-th variable and
      holds that variable's value. */
  lemma CapsNamed(parts: seq<Part>, vals: map<string, string>)
    requires forall v :: v in Variables(parts) ==> v in vals
    ensures var caps := Caps(parts, 0, vals);
            && |caps| == |Variables(parts)|
            && forall i :: 0 <= i < |caps| ==>
                 && caps[i].0 in ArgMap(parts)
                 && ArgMap(parts)[caps[i].0] == Variables(parts)[i]
                 && caps[i].1 == vals[Variables(parts)[i]]
  {
    CapsAt(parts, 0, vals);
    ArgMapGroups(parts);
  }

  lemma VariablesDefined(parts: seq<Part>, vals: map<string, string>)
    requires forall i :: 0 <= i < |parts| && parts[i].Placeholder? ==> parts[i].variable in vals
    ensures forall v :: v in Variables(parts) ==> v in vals
    ensures forall n :: 0 <= n < |Variables(parts)| ==> Variables(parts)[n] in TextArgs(vals)
  {
    VariablesFrom(parts);
  }

  /** Every variable is the variable of a placeholder. */
  lemma {:induction false} VariablesFrom(parts: seq<Part>)
    ensures forall v :: v in Variables(parts) ==>
              exists i :: 0 <= i < |parts| && parts[i].Placeholder? && parts[i].variable == v
    decreases |parts|
  {
    if parts != [] {
      VariablesFrom(parts[1..]);
      VariablesAppend([parts[0]], parts[1..]);
      assert parts == [parts[0]] + parts[1..];
      forall v | v in Variables(parts)
        ensures exists i :: 0 <= i < |parts| && parts[i].Placeholder? && parts[i].variable == v
      {
        if v in Variables(parts[1..]) {
          var i :| 0 <= i < |parts[1..]| && parts[1..][i].Placeholder? && parts[1..][i].variable == v;
          assert parts[i + 1] == parts[1..][i];
        } else {
          assert parts[0].Placeholder? && parts[0].variable == v;
        }
      }
    }
  }
}
