/** Header patterns (`compile_header_rule`, ldp/rule.py): the literal text of
    a declared header pattern is a shell-style glob translated as
    `fnmatch.translate` does, its `<conv:name>` placeholders are named
    converter groups, and the compiled pattern is anchored at both ends, so
    it must account for the whole header value. */
module HeaderMatch {
  import opened Wrappers
  import opened Strings
  import opened Values

  // ---------------------------------------------------------------------
  // Converters
  // ---------------------------------------------------------------------

  /** The converters a header placeholder can name: the unicode converter
      (`default`, `string`) without arguments, the integer converter with its
      `fixed_digits`, `min` and `max` arguments, the `any(...)` converter, and
      any other converter, given by the text its pattern accepts, its
      `to_python` (`None` where it raises `ValidationError`), whether its
      pattern is lazy, and its weight. */
  datatype Conv =
    | DefaultConv
    | IntConv(fixedDigits: nat, min: Option<int>, max: Option<int>)
    | AnyConv(items: seq<string>)
    | CustomConv(accepts: string -> bool, toPython: string -> Option<Value>, lazy: bool, weight: int)

  /** The text a converter's pattern accepts: `[^/]{1,}`, `\d+`, one of the
      `any` items, or the custom predicate. */
  predicate Accepts(c: Conv, t: string)
  {
    match c
    case DefaultConv => |t| >= 1 && '/' !in t
    case IntConv(_, _, _) => IsDigits(t)
    case AnyConv(items) => t in items
    case CustomConv(accepts, _, _, _) => accepts(t)
  }

  /** `to_python`: the value a captured text converts to, `None` for a
      `ValidationError`.  The integer converter rejects a text of the wrong
      fixed width and a number outside `min`..`max`. */
  function ToPython(c: Conv, t: string): (r: Option<Value>)
    ensures c.DefaultConv? || c.AnyConv? ==> r == Some(Text(t))
    ensures c.IntConv? && r.Some? ==> IsDigits(t) && r.value.Int? && r.value.number == DigitsValue(t)
    ensures c.IntConv? && r.Some? ==> (c.fixedDigits == 0 || |t| == c.fixedDigits)
    ensures c.IntConv? && r.Some? && c.min.Some? ==> c.min.value <= r.value.number
    ensures c.IntConv? && r.Some? && c.max.Some? ==> r.value.number <= c.max.value
  {
    match c
    case DefaultConv => Some(Text(t))
    case AnyConv(_) => Some(Text(t))
    case IntConv(fixed, lo, hi) =>
      if !IsDigits(t) || (fixed > 0 && |t| != fixed) then None
      else
        var n := DigitsValue(t);
        if (lo.Some? && n < lo.value) || (hi.Some? && n > hi.value) then None else Some(Int(n))
    case CustomConv(_, toPython, _, _) => toPython(t)
  }

  /** A plain integer converter takes every digit string to its number. */
  lemma IntConverts(t: string)
    requires IsDigits(t)
    ensures ToPython(IntConv(0, None, None), t) == Some(Int(DigitsValue(t)))
  {
  }

  /** The converter weight recorded in `_weights`. */
  function Weight(c: Conv): int
  {
    match c
    case DefaultConv => 100
    case IntConv(_, _, _) => 50
    case AnyConv(_) => 100
    case CustomConv(_, _, _, w) => w
  }

  // ---------------------------------------------------------------------
  // Compiled patterns
  // ---------------------------------------------------------------------

  datatype ClassItem = Single(c: char) | Span(lo: char, hi: char)

  /** One element of a compiled header pattern: a literal character, `?`,
      `*`, a bracket class (possibly negated), or a named converter group. */
  datatype Item =
    | Lit(c: char)
    | AnyChar
    | Star
    | Class(members: seq<ClassItem>, negated: bool)
    | Group(name: string, conv: Conv)

  predicate InClass(members: seq<ClassItem>, c: char)
  {
    exists i :: 0 <= i < |members| && (match members[i]
                                        case Single(x) => c == x
                                        case Span(lo, hi) => lo <= c <= hi)
  }

  /** The text one pattern element matches.  `?` and `*` stop at a line
      break, because the pattern is compiled without the `(?ms)` flags that
      the `[:-7]` slice removes. */
  predicate Fits(it: Item, piece: string)
  {
    match it
    case Lit(c) => piece == [c]
    case AnyChar => |piece| == 1 && piece[0] != '\n'
    case Star => '\n' !in piece
    case Class(members, negated) => |piece| == 1 && InClass(members, piece[0]) != negated
    case Group(_, conv) => Accepts(conv, piece)
  }

  // ---------------------------------------------------------------------
  // Glob translation (`fnmatch.translate(variable)[:-7]`)
  // ---------------------------------------------------------------------

  /** Where the search for the `]` closing a class opened by `g[0]` starts:
      past a leading `!` and then a leading `]`, which are class members. */
  function ClassStart(g: string): (j: nat)
    requires g != []
    ensures 1 <= j <= |g|
  {
    var a := if 1 < |g| && g[1] == '!' then 2 else 1;
    if a < |g| && g[a] == ']' then a + 1 else a
  }

  /** The index of the `]` closing the class opened by `g[0]`, or `|g|`. */
  function ClassClose(g: string): (j: nat)
    requires g != []
    ensures 2 <= j <= |g| || j == |g|
  {
    ClassStart(g) + RunWithout(g[ClassStart(g)..], ']')
  }

  /** A class body: `x-y` is a range, anything else a single member. */
  function ClassItems(t: string): seq<ClassItem>
    decreases |t|
  {
    if t == [] then []
    else if |t| >= 3 && t[1] == '-' then [Span(t[0], t[2])] + ClassItems(t[3..])
    else [Single(t[0])] + ClassItems(t[1..])
  }

  /** A class body with a leading `!` is negated. */
  function ClassOf(body: string): Item
  {
    if body != [] && body[0] == '!' then Class(ClassItems(body[1..]), true)
    else Class(ClassItems(body), false)
  }

  /** The translation of a glob: `*`, `?`, a closed `[...]` class, and every
      other character (an unclosed `[` included) as itself. */
  function Glob(g: string): (p: seq<Item>)
    ensures forall i :: 0 <= i < |p| ==> !p[i].Group?
    decreases |g|
  {
    if g == [] then []
    else if g[0] == '*' then [Star] + Glob(g[1..])
    else if g[0] == '?' then [AnyChar] + Glob(g[1..])
    else if g[0] == '[' && ClassClose(g) < |g| then [ClassOf(g[1..ClassClose(g)])] + Glob(g[ClassClose(g) + 1..])
    else [Lit(g[0])] + Glob(g[1..])
  }

  predicate Plain(g: string)
  {
    forall i :: 0 <= i < |g| ==> g[i] != '*' && g[i] != '?' && g[i] != '['
  }

  function Lits(g: string): (p: seq<Item>)
    ensures |p| == |g| && forall i :: 0 <= i < |g| ==> p[i] == Lit(g[i])
  {
    seq(|g|, i requires 0 <= i < |g| => Lit(g[i]))
  }

  lemma PlainAppend(a: string, b: string)
    requires Plain(a) && Plain(b)
    ensures Plain(a + b)
  {
    forall i | 0 <= i < |a + b|
      ensures (a + b)[i] != '*' && (a + b)[i] != '?' && (a + b)[i] != '['
    {
      if i >= |a| {
        assert (a + b)[i] == b[i - |a|];
      }
    }
  }

  /** Glob text without `*`, `?` or `[` stands for itself. */
  lemma {:induction false} PlainGlob(g: string)
    requires Plain(g)
    ensures Glob(g) == Lits(g)
    decreases |g|
  {
    if g != [] {
      PlainGlob(g[1..]);
      assert Lits(g) == [Lit(g[0])] + Lits(g[1..]);
    }
  }

  // ---------------------------------------------------------------------
  // Matching
  // ---------------------------------------------------------------------

  type Capture = (string, string)

  function Down(n: nat): (r: seq<nat>)
    ensures |r| == n + 1 && forall i :: 0 <= i < |r| ==> r[i] == n - i
  {
    seq(n + 1, i requires 0 <= i < n + 1 => n - i)
  }

  function Up(n: nat): (r: seq<nat>)
    ensures |r| == n + 1 && forall i :: 0 <= i < |r| ==> r[i] == i
  {
    seq(n + 1, i requires 0 <= i < n + 1 => i)
  }

  /** The lengths an element tries, in the order the regular-expression
      engine tries them on a text of length `n`: greedy `*` and converter
      patterns longest first, a lazy pattern shortest first, the `any`
      alternatives in their written order, one character otherwise. */
  function Lengths(it: Item, n: nat): seq<nat>
  {
    match it
    case Star => Down(n)
    case Group(_, conv) =>
      (match conv
       case AnyConv(items) => seq(|items|, i requires 0 <= i < |items| => |items[i]|)
       case CustomConv(_, _, lazy, _) => if lazy then Up(n) else Down(n)
       case _ => Down(n))
    case _ => [1]
  }

  /** Every length an element can match is among those it tries. */
  lemma LengthsCover(it: Item, piece: string, n: nat)
    requires Fits(it, piece) && |piece| <= n
    ensures |piece| in Lengths(it, n)
  {
    match it
    case Star =>
      assert Down(n)[n - |piece|] == |piece|;
    case Group(_, conv) =>
      match conv {
        case AnyConv(items) =>
          var i :| 0 <= i < |items| && items[i] == piece;
          assert Lengths(it, n)[i] == |piece|;
        case CustomConv(_, _, lazy, _) =>
          if lazy {
            assert Up(n)[|piece|] == |piece|;
          } else {
            assert Down(n)[n - |piece|] == |piece|;
          }
        case _ =>
          assert Down(n)[n - |piece|] == |piece|;
      }
    case _ =>
  }

  function CaptureOf(it: Item, piece: string): seq<Capture>
  {
    if it.Group? then [(it.name, piece)] else []
  }

  /** `re.compile('^' + pattern + '$').search(value)`: the captures of the
      first way, in the engine's order, to cut the whole value into pieces
      matching the elements, or `None`. */
  function Match(p: seq<Item>, s: string): Option<seq<Capture>>
    decreases |p|, 1, 0
  {
    if p == [] then (if s == [] then Some([]) else None)
    else TryPiece(p, s, Lengths(p[0], |s|))
  }

  function TryPiece(p: seq<Item>, s: string, ks: seq<nat>): Option<seq<Capture>>
    requires p != []
    decreases |p|, 0, |ks|
  {
    if ks == [] then None
    else
      var k := ks[0];
      if k <= |s| && Fits(p[0], s[..k]) then
        match Match(p[1..], s[k..])
        case Some(caps) => Some(CaptureOf(p[0], s[..k]) + caps)
        case None => TryPiece(p, s, ks[1..])
      else TryPiece(p, s, ks[1..])
  }

  /** A cut of a value into one piece per element, each fitting its element. */
  predicate Spans(p: seq<Item>, pieces: seq<string>)
  {
    |pieces| == |p| && forall i :: 0 <= i < |p| ==> Fits(p[i], pieces[i])
  }

  function Concat(pieces: seq<string>): string
  {
    if pieces == [] then "" else pieces[0] + Concat(pieces[1..])
  }

  /** The `groupdict` items of a cut, in group order. */
  function CapturesOf(p: seq<Item>, pieces: seq<string>): seq<Capture>
    requires |pieces| == |p|
  {
    if p == [] then [] else CaptureOf(p[0], pieces[0]) + CapturesOf(p[1..], pieces[1..])
  }

  /** A match is a cut of the whole value, and its captures are the cut's. */
  lemma {:induction false} MatchSound(p: seq<Item>, s: string) returns (pieces: seq<string>)
    requires Match(p, s).Some?
    ensures Spans(p, pieces) && Concat(pieces) == s
    ensures Match(p, s).value == CapturesOf(p, pieces)
    decreases |p|, 1, 0
  {
    if p == [] {
      pieces := [];
    } else {
      pieces := TryPieceSound(p, s, Lengths(p[0], |s|));
    }
  }

  lemma {:induction false} TryPieceSound(p: seq<Item>, s: string, ks: seq<nat>) returns (pieces: seq<string>)
    requires p != [] && TryPiece(p, s, ks).Some?
    ensures Spans(p, pieces) && Concat(pieces) == s
    ensures TryPiece(p, s, ks).value == CapturesOf(p, pieces)
    decreases |p|, 0, |ks|
  {
    var k := ks[0];
    if k <= |s| && Fits(p[0], s[..k]) && Match(p[1..], s[k..]).Some? {
      var rest := MatchSound(p[1..], s[k..]);
      pieces := [s[..k]] + rest;
      assert pieces[1..] == rest;
      forall i | 0 <= i < |p|
        ensures Fits(p[i], pieces[i])
      {
        if i > 0 {
          assert p[i] == p[1..][i - 1];
        }
      }
      assert s == s[..k] + s[k..];
    } else {
      pieces := TryPieceSound(p, s, ks[1..]);
    }
  }

  /** Every cut of a value is found: the match fails only when no cut exists. */
  lemma {:induction false} MatchComplete(p: seq<Item>, pieces: seq<string>)
    requires Spans(p, pieces)
    ensures Match(p, Concat(pieces)).Some?
    decreases |p|
  {
    if p != [] {
      var s := Concat(pieces);
      var k := |pieces[0]|;
      assert s == pieces[0] + Concat(pieces[1..]);
      assert s[..k] == pieces[0] && s[k..] == Concat(pieces[1..]);
      assert Spans(p[1..], pieces[1..]) by {
        forall i | 0 <= i < |p| - 1
          ensures Fits(p[1..][i], pieces[1..][i])
        {
          assert Fits(p[i + 1], pieces[i + 1]);
        }
      }
      MatchComplete(p[1..], pieces[1..]);
      LengthsCover(p[0], pieces[0], |s|);
      TryPieceFinds(p, s, Lengths(p[0], |s|), k);
    }
  }

  lemma {:induction false} TryPieceFinds(p: seq<Item>, s: string, ks: seq<nat>, k: nat)
    requires p != [] && k in ks && k <= |s| && Fits(p[0], s[..k]) && Match(p[1..], s[k..]).Some?
    ensures TryPiece(p, s, ks).Some?
    decreases |ks|
  {
    if ks[0] != k {
      assert k in ks[1..];
      TryPieceFinds(p, s, ks[1..], k);
    }
  }

  /** A header value matches exactly when it can be cut into pieces fitting
      the pattern's elements: the pattern is anchored at both ends. */
  lemma MatchIff(p: seq<Item>, s: string)
    ensures Match(p, s).Some? <==> exists pieces :: Spans(p, pieces) && Concat(pieces) == s
  {
    if Match(p, s).Some? {
      var pieces := MatchSound(p, s);
    }
    if exists pieces :: Spans(p, pieces) && Concat(pieces) == s {
      var pieces :| Spans(p, pieces) && Concat(pieces) == s;
      MatchComplete(p, pieces);
    }
  }

  /** A literal prefix consumes exactly itself and captures nothing. */
  lemma {:induction false} LitsPrefix(g: string, rest: seq<Item>, s: string)
    ensures Match(Lits(g) + rest, s) == if g <= s then Match(rest, s[|g|..]) else None
    decreases |g|
  {
    if g != [] {
      var p := Lits(g) + rest;
      assert p[0] == Lit(g[0]);
      assert p[1..] == Lits(g[1..]) + rest;
      assert Lengths(p[0], |s|) == [1] && [1][1..] == [];
      assert TryPiece(p, s, []) == None;
      if |s| >= 1 && s[0] == g[0] {
        assert Fits(p[0], s[..1]);
        match Match(p[1..], s[1..]) {
          case Some(caps) => assert CaptureOf(p[0], s[..1]) + caps == caps;
          case None =>
        }
        LitsPrefix(g[1..], rest, s[1..]);
        assert s[..1] == [g[0]];
        assert g <= s <==> g[1..] <= s[1..];
        if g <= s {
          assert s[1..][|g| - 1..] == s[|g|..];
        }
      }
    } else {
      assert Lits(g) + rest == rest;
    }
  }

  /** A glob that starts with plain text translates that text to itself. */
  lemma {:induction false} GlobPlainThen(g: string, h: string)
    requires Plain(g)
    ensures Glob(g + h) == Lits(g) + Glob(h)
    decreases |g|
  {
    if g == [] {
      assert g + h == h;
    } else {
      var gh := g + h;
      assert gh[0] == g[0] && gh[1..] == g[1..] + h;
      assert g[0] != '*' && g[0] != '?' && g[0] != '[';
      assert Glob(gh) == [Lit(g[0])] + Glob(gh[1..]);
      assert Plain(g[1..]) by {
        forall i | 0 <= i < |g[1..]| ensures g[1..][i] == g[i + 1] { }
      }
      GlobPlainThen(g[1..], h);
      assert Lits(g) == [Lit(g[0])] + Lits(g[1..]);
    }
  }

  /** A closed class `[body]` whose body starts with neither `!` nor `]`
      translates to one class element, followed by the rest of the glob. */
  lemma GlobClassThen(body: string, h: string)
    requires body != [] && body[0] != '!' && body[0] != ']' && ']' !in body
    ensures Glob("[" + body + "]" + h) == [ClassOf(body)] + Glob(h)
  {
    var g := "[" + body + "]" + h;
    assert ClassStart(g) == 1;
    assert g[1..] == body + "]" + h;
    RunWithoutAt(g[1..], ']', |body|);
    assert ClassClose(g) == 1 + |body|;
    assert g[1..1 + |body|] == body && g[2 + |body|..] == h;
  }

  /** The last element of a pattern takes whatever is left, if it fits. */
  lemma SingleItem(it: Item, s: string)
    ensures Match([it], s) == if Fits(it, s) then Some(CaptureOf(it, s)) else None
  {
    var p := [it];
    assert p[1..] == [];
    if Fits(it, s) {
      LengthsCover(it, s, |s|);
    }
    LastPieceTries(it, s, Lengths(it, |s|));
  }

  lemma {:induction false} LastPieceTries(it: Item, s: string, ks: seq<nat>)
    ensures TryPiece([it], s, ks) == if |s| in ks && Fits(it, s) then Some(CaptureOf(it, s)) else None
    decreases |ks|
  {
    var p := [it];
    assert p[0] == it && p[1..] == [];
    if ks != [] {
      LastPieceTries(it, s, ks[1..]);
      var k := ks[0];
      if k <= |s| && Fits(it, s[..k]) {
        assert Match([], s[k..]).Some? <==> k == |s|;
        if k == |s| {
          assert s[..k] == s;
          assert CaptureOf(it, s) + [] == CaptureOf(it, s);
        }
      }
      assert |s| in ks <==> ks[0] == |s| || |s| in ks[1..];
    }
  }

  /** A one-character element at the front consumes one fitting character. */
  lemma OneCharFront(it: Item, rest: seq<Item>, s: string)
    requires it.Lit? || it.AnyChar? || it.Class?
    ensures Match([it] + rest, s) == if |s| >= 1 && Fits(it, s[..1]) then Match(rest, s[1..]) else None
  {
    var p := [it] + rest;
    assert p[0] == it && p[1..] == rest;
    assert Lengths(it, |s|) == [1] && [1][1..] == [];
    assert TryPiece(p, s, []) == None;
    if |s| >= 1 && Fits(it, s[..1]) {
      match Match(rest, s[1..]) {
        case Some(caps) => assert CaptureOf(it, s[..1]) + caps == caps;
        case None =>
      }
    }
  }
}
