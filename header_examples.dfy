/** Header-constrained routes on concrete requests: the scenarios of the
    header-rule test suite (test/development/test_headers_based_rule.py)
    stated as facts about the model. */
module HeaderExamples {
  import opened Wrappers
  import opened Strings
  import opened Values
  import opened HeaderMatch
  import opened HeaderRule

  const PlainInt := IntConv(0, None, None)
  const MaxAge := Group("max_age", PlainInt)

  // The glob `text/*` in an `Accept` pattern admits `text/turtle` and not `XXX/turtle`.
  lemma AcceptGlob()
    ensures Match(Glob("text/*"), "text/turtle") == Some([])
    ensures Match(Glob("text/*"), "XXX/turtle") == None
  {
    TextGlob();
    assert Match(Lits("text/") + [Star], "text/turtle") == Some([]) by {
      LitsPrefix("text/", [Star], "text/turtle");
      assert "text/" <= "text/turtle";
      assert "text/turtle"[5..] == "turtle";
      SingleItem(Star, "turtle");
      assert Fits(Star, "turtle");
    }
    assert Match(Lits("text/") + [Star], "XXX/turtle") == None by {
      LitsPrefix("text/", [Star], "XXX/turtle");
      assert "XXX/turtle"[0] != "text/"[0];
    }
  }

  lemma TextGlob()
    ensures Glob("text/*") == Lits("text/") + [Star]
  {
    GlobPlainThen("text/", "*");
    assert "text/" + "*" == "text/*";
    assert Glob("*") == [Star] + Glob("");
  }

  const TabOrSpaceClass := Class([Single(' '), Single('\t')], false)
  const AfterClass := Lits("max-age=") + [MaxAge]
  const TabOrSpaceParts := [Static("public,[ \t]max-age="), Var("max_age", PlainInt)]
  const TabOrSpaceCompiled := Lits("public,") + ([TabOrSpaceClass] + AfterClass)

  lemma ClassGlob()
    ensures Glob("[ \t]max-age=") == [TabOrSpaceClass] + Lits("max-age=")
  {
    assert "[ \t]max-age=" == "[" + " \t" + "]" + "max-age=";
    GlobClassThen(" \t", "max-age=");
    assert ClassItems(" \t") == [Single(' '), Single('\t')] by {
      assert " \t"[1..] == "\t" && "\t"[1..] == "";
    }
    MaxAgeGlob();
  }

  lemma MaxAgeGlob()
    ensures Glob("max-age=") == Lits("max-age=")
  {
    PlainGlob("max-age=");
  }

  lemma PublicThenClass()
    ensures Glob("public,[ \t]max-age=") == Lits("public,") + Glob("[ \t]max-age=")
  {
    assert "public,[ \t]max-age=" == "public," + "[ \t]max-age=";
    GlobPlainThen("public,", "[ \t]max-age=");
  }

  /** The declared value `public,[ \t]max-age=<int:max_age>` compiles to
      `TabOrSpaceCompiled`. */
  lemma TabOrSpacePattern()
    ensures PatternOf(TabOrSpaceParts) == TabOrSpaceCompiled
  {
    ClassGlob();
    PublicThenClass();
    PatternOfTwo(Static("public,[ \t]max-age="), Var("max_age", PlainInt));
  }

  lemma AfterClassMatches()
    ensures Match(AfterClass, "max-age=30") == Some([("max_age", "30")])
    ensures Match(AfterClass, " max-age=30") == None
  {
    assert Match(AfterClass, "max-age=30") == Some([("max_age", "30")]) by {
      LitsPrefix("max-age=", [MaxAge], "max-age=30");
      assert "max-age=30"[8..] == "30";
      SingleItem(MaxAge, "30");
      assert IsDigits("30");
    }
    assert Match(AfterClass, " max-age=30") == None by {
      LitsPrefix("max-age=", [MaxAge], " max-age=30");
      assert " max-age=30"[0] != "max-age="[0];
    }
  }

  /** After `public,` the class takes one tab or one space. */
  lemma ClassStep(v: string, c: char)
    requires c == ' ' || c == '\t'
    requires v == "public," + [c] + "max-age=30"
    ensures Match(TabOrSpaceCompiled, v) == Some([("max_age", "30")])
  {
    LitsPrefix("public,", [TabOrSpaceClass] + AfterClass, v);
    assert "public," <= v;
    var w := v[7..];
    assert w == [c] + "max-age=30";
    OneCharFront(TabOrSpaceClass, AfterClass, w);
    assert w[..1] == [c] && w[1..] == "max-age=30";
    var members := [Single(' '), Single('\t')];
    if c == ' ' {
      assert members[0] == Single(c);
    } else {
      assert members[1] == Single(c);
    }
    assert InClass(members, c);
    AfterClassMatches();
  }

  /** The bracket class takes exactly one character: two spaces do not match. */
  lemma TwoSpaces()
    ensures Match(TabOrSpaceCompiled, "public,  max-age=30") == None
  {
    var w := "public,  max-age=30";
    LitsPrefix("public,", [TabOrSpaceClass] + AfterClass, w);
    assert "public," <= w && w[7..] == "  max-age=30";
    OneCharFront(TabOrSpaceClass, AfterClass, "  max-age=30");
    assert "  max-age=30"[1..] == " max-age=30";
    AfterClassMatches();
  }

  /** The route `/<int:x>` with `Cache-Control: public, max-age=<int:max_age>`. */
  const CacheControl := [("Cache-Control", [Static("public, max-age="), Var("max_age", PlainInt)])]

  lemma CacheControlCompiled(t: Tables)
    ensures Patterns(CacheControl) == [("Cache-Control", Lits("public, max-age=") + [MaxAge])]
    ensures "max_age" in CompileAll(t, CacheControl).converters
    ensures CompileAll(t, CacheControl).converters["max_age"] == PlainInt
  {
    CacheControlPattern();
    CacheControlConverter(t);
  }

  lemma CacheControlPattern()
    ensures Patterns(CacheControl) == [("Cache-Control", Lits("public, max-age=") + [MaxAge])]
  {
    var parts := CacheControl[0].1;
    assert PatternOf(parts) == Lits("public, max-age=") + [MaxAge] by {
      PatternOfTwo(parts[0], parts[1]);
      CacheControlPrefix();
    }
    var r := Patterns(CacheControl);
    assert |r| == 1 && r[0] == ("Cache-Control", PatternOf(parts));
  }

  lemma CacheControlPrefix()
    ensures Glob("public, max-age=") == Lits("public, max-age=")
  {
    PlainPublic();
    PlainMaxAge();
    assert "public, " + "max-age=" == "public, max-age=";
    PlainAppend("public, ", "max-age=");
    PlainGlob("public, max-age=");
  }

  lemma PlainPublic()
    ensures Plain("public, ")
  {
  }

  lemma PlainMaxAge()
    ensures Plain("max-age=")
  {
  }

  lemma CacheControlConverter(t: Tables)
    ensures "max_age" in CompileAll(t, CacheControl).converters
    ensures CompileAll(t, CacheControl).converters["max_age"] == PlainInt
  {
    var parts := CacheControl[0].1;
    assert CompileAll(t, CacheControl) == Compiled(t, parts) by {
      assert CacheControl[..0] == [];
    }
    var t' := t.(trace := t.trace + [(false, "|")]);
    assert AddParts(t', parts) == AddPart(AddParts(t', [parts[0]]), parts[1]) by {
      assert parts[..1] == [parts[0]];
    }
  }

  /** One declared header whose value matches and converts: the header loop
      adds the converted values to the path match. */
  lemma OneHeader(name: string, p: seq<Item>, convs: map<string, Conv>, m: map<string, Value>,
                  request: map<string, string>, caps: seq<Capture>, result: map<string, Value>)
    requires Covered([(name, p)], convs) && name in request
    requires Match(p, request[name]) == Some(caps) && Named(caps, convs)
    requires Converted(caps, convs, map[]) == Some(result)
    ensures HeaderNames([(name, p)]) <= request.Keys
    ensures HeaderMatches([(name, p)], convs, map[], m, request) == Some(m + result)
  {
    var patterns := [(name, p)];
    assert HeaderNames(patterns) == {name} by {
      assert patterns[0].0 == name;
    }
    assert patterns[1..] == [];
    assert result + map[] == result;
  }

  /** The value `public, max-age=30` fits `public, max-age=<int:max_age>`. */
  lemma CacheControlValue()
    ensures Match(Lits("public, max-age=") + [MaxAge], "public, max-age=30") == Some([("max_age", "30")])
  {
    var v := "public, max-age=30";
    LitsPrefix("public, max-age=", [MaxAge], v);
    assert v[16..] == "30";
    SingleItem(MaxAge, "30");
    assert IsDigits("30");
  }

  /** `30` through the plain integer converter. */
  lemma ThirtyConverted(convs: map<string, Conv>)
    requires "max_age" in convs && convs["max_age"] == PlainInt
    ensures Named([("max_age", "30")], convs)
    ensures Converted([("max_age", "30")], convs, map[]) == Some(map["max_age" := Int(30)])
  {
    var caps := [("max_age", "30")];
    assert DigitsValue("30") == 30 by {
      assert "30"[..1] == "3" && "3"[..0] == "";
    }
    assert caps[1..] == [];
  }

  /** `/23` with `Cache-Control: public, max-age=30` gives `x = 23` and
      `max_age = 30`; `max-age=xx` and a missing header give no match. */
  lemma CacheControlMatch(t: Tables)
    ensures var convs := CompileAll(t, CacheControl).converters;
            var patterns := Patterns(CacheControl);
            Covered(patterns, convs) &&
            RuleMatch(true, patterns, convs, map[], Some(map["x" := Int(23)]),
                      Some(map["Cache-Control" := "public, max-age=30"]))
              == Some(map["x" := Int(23), "max_age" := Int(30)])
  {
    var convs := CompileAll(t, CacheControl).converters;
    var p := Lits("public, max-age=") + [MaxAge];
    CacheControlCompiled(t);
    CompiledCovered(t, CacheControl);
    CacheControlValue();
    ThirtyConverted(convs);
    OneHeader("Cache-Control", p, convs, map["x" := Int(23)], map["Cache-Control" := "public, max-age=30"],
              [("max_age", "30")], map["max_age" := Int(30)]);
    assert map["x" := Int(23)] + map["max_age" := Int(30)] == map["x" := Int(23), "max_age" := Int(30)];
  }

  lemma CacheControlRejects(t: Tables)
    ensures var convs := CompileAll(t, CacheControl).converters;
            var patterns := Patterns(CacheControl);
            Covered(patterns, convs) &&
            RuleMatch(true, patterns, convs, map[], Some(map["x" := Int(23)]),
                      Some(map["Cache-Control" := "public, max-age=xx"])) == None &&
            RuleMatch(true, patterns, convs, map[], Some(map["x" := Int(23)]), Some(map[])) == None
  {
    var convs := CompileAll(t, CacheControl).converters;
    var patterns := Patterns(CacheControl);
    CacheControlCompiled(t);
    CompiledCovered(t, CacheControl);
    var v := "public, max-age=xx";
    assert HeaderNames(patterns) == {"Cache-Control"} by {
      assert patterns[0].0 == "Cache-Control";
    }
    assert Match(Lits("public, max-age=") + [MaxAge], v) == None by {
      LitsPrefix("public, max-age=", [MaxAge], v);
      assert v[16..] == "xx";
      SingleItem(MaxAge, "xx");
      assert !IsDigits("xx") by {
        assert "xx"[0] == 'x';
      }
    }
  }
}
