# ldp routing and resource binding, in Dafny

This project models the routing and resource-binding engine of `ldp`, a
Flask extension that serves Linked Data Platform resources out of an RDF
dataset.

A *resource binding* ties a view argument to an identifier template such as
`http://x/<c>#<c>`. The engine works in five parts:

- **Template compiler** (`iter_rule_parts`, `URIRefBinding.parsed_rule`).
  It scans a template into literal pieces and placeholders. It then compiles
  these into three things: a regular expression with groups `id0, id1, …`,
  a `str.format` template, and a map from group id to variable name.
- **Formatting and reverse lookup.** `uriref` fills the template.
  `endpoint_for` goes back from an identifier to the endpoint and its
  arguments.
- **Resource map** (`ResourceMap`). It holds the bindings in registration
  order, globally and per endpoint. It ranks the bindings whose arguments
  are all available by how many available names they leave unused.
- **Header-aware routes** (`HeadersRule`, `BindableRule`). A route may also
  declare header patterns: literal text as a glob, variables as converter
  groups. These are compiled once, matched against whole header values,
  converted, and merged into the path match. A bindable rule then adds the
  identifier of each resource variable.
- **Resource resolution and dispatch.** A resolved identifier's statements
  move out of their home graph into a pool graph of their own
  (`ResourceContextAdapter` / `ResourceAppAdapter`). `LDPApp` registers
  bindings with views. For each request, `dispatch_request` either
  dispatches ordinarily, calls the bound view with the resource, hands the
  resource to the application of its LDP types, or, when bindings apply
  but none resolves, ends in `raise None` (see below).
- **LDP types** (`ldp/resource.py`). The LDP type tree and
  `implied_types`, `replace_resource`, and the derived PUT/GET rules and
  their media types.

Modules, one per file:

| file | module | models |
|---|---|---|
| wrappers.dfy | Wrappers | `Option`, `Result` |
| strings.dfy | Strings | decimal rendering (`'%s' % n`, `int(s)`), `str.split` |
| values.dfy | Values | matched values (text or integer) and `str(value)` |
| rule_syntax.dfy | RuleSyntax | `_uriref_rule_re`, `iter_rule_parts` |
| uri_template.dfy | UriTemplate | `parsed_rule`, converter lookup and widening, `uriref` via `str.format` |
| ranking.dfy | Ranking | Python's stable `sorted` with a key |
| bindings.dfy | Bindings | `URIRefBinding` arguments, `ResourceMap` (class) |
| reverse_lookup.dfy | ReverseLookup | `endpoint_for` over an abstract regex engine |
| round_trip.dfy | RoundTrip | `endpoint_for(uriref(**v))` gives back the endpoint and `v` |
| header_match.dfy | HeaderMatch | converters, `fnmatch` translation, anchored header matching |
| header_rule.dfy | HeaderRule | `compile_header_rule`, `HeadersRule.match` (class) |
| header_examples.dfy | HeaderExamples | the header-rule test scenarios as facts |
| bindable_rule.dfy | BindableRules | `BindableRule` (class) |
| store.dfy | Store | dataset, pool, `resource`/`move_to_pool` (class) |
| ldp_types.dfy | LdpTypes | type tree, `implied_types`, `replace_resource` (class `Graph`), derived rules |
| app.dfy | App | `LDPApp.add_resource_rule`, `dispatch_request`, `resource_view` (class) |

Where the code does something other than its own description would
suggest, the model follows the code:

- **Header patterns are anchored.** Every header pattern is compiled as
  `^…$`, so it must match the whole value, save that Python's `$` also
  lets a single final line break go unconsumed (ldp/rule.py:118-121). The
  model requires the whole value; see "Left out".
- **Unknown converters.** In `parsed_rule` an unknown converter name falls
  back to the `default` converter. `get_converter` would raise `LookupError`
  for the same name (ldp/binding.py:149-151, 174-176).
- **A failed lookup still creates a pool graph.** The pool graph is created
  before anything moves. A lookup that finds nothing therefore leaves an
  empty pool graph, and a second lookup of that identifier answers with the
  empty graph (ldp/rule.py:231, ldp/binding.py:261).
- **Header values override path values.** Header captures are merged into
  the path match with `update`. A header variable that shares a name with a
  path variable replaces it, and nothing checks that the two agree
  (ldp/rule.py:74).
- **`implied_types` yields explicit types too.** `implied_types(BasicContainer)`
  yields BasicContainer, Container, RDFSource and Resource, because each
  explicit type the tree holds is yielded before its ancestors
  (ldp/resource.py:49). A test of the repository expects the set without
  BasicContainer (test/development/test_resource.py:36-40).
- **A miss raises `None`.** When bindings apply but none resolves, the
  code calls `raise_routing_exception(req)` again (ldp/app.py:91-93). Its
  comment promises a 404, but the routing exception is `None` there (line
  76 has already handled the other case), and Flask's
  `raise request.routing_exception` then raises `None`, a `TypeError` that
  Flask answers with a server error. The model answers `RaisedNone`.
- **Template braces.** `parsed_rule` appends literal text to the
  `str.format` template verbatim (ldp/binding.py:146), and `ParseRule`
  builds that template. Filling it is the bug of the "Findings" table.
  `Uriref`, which the bindings, the bindable rules, dispatch and the round
  trip use, is the corrected `uriref`. The source's own, for literal text
  whose braces form plain-name fields, doubled braces or stray braces, is
  `UrirefAsWritten` (see "Left out" for other fields), and
  `UriTemplate.UrirefAsWrittenAgrees` proves the two equal on every
  template whose literal text holds no brace.
- **Round-trip condition.** A value must avoid *every* literal character of
  its template, not only those of the literal that follows it. Groups
  backtrack: in `<a>#<b>` with `a = "x"` and `b = "y#z"`, group `a` takes
  `x#y`.

## Model

| member | source | states |
|---|---|---|
| RuleSyntax.IdentLen | ldp/binding.py:23 | the identifier run at the start of a string is `[a-zA-Z_][a-zA-Z0-9_]*` and maximal |
| RuleSyntax.VariableAt | ldp/binding.py:27-28 | a `variable>` found at an index is an identifier that ends just before the `>` it consumes |
| RuleSyntax.HeadLen | ldp/binding.py:20-21 | the head is the longest `<`-free prefix, and a `<` follows it when it is not the whole text |
| RuleSyntax.MatchBody | ldp/binding.py:22-28 | a placeholder body match consumes at least `v>` and yields a placeholder |
| RuleSyntax.ArgsSearch | ldp/binding.py:24 | the lazy `(args)` group ends at the first `)` followed by `:variable>` |
| RuleSyntax.MatchRule | ldp/binding.py:19-30 | one regex match yields a `<`-free head, a placeholder and a strictly shorter tail |
| RuleSyntax.IterRuleParts | ldp/binding.py:36-46 | the `while rule:` loop yields exactly the parts the specification function gives |
| RuleSyntax.RulePartsShape | ldp/binding.py:36-46 | the last item is always a literal (the unparsed rest); every earlier literal is non-empty, has no `<` and is followed by a placeholder; every placeholder is well formed |
| RuleSyntax.RenderRuleParts | ldp/binding.py:19-46 | for a template without line breaks, re-rendering the parts (`<v>`, `<c:v>`, `<c(a):v>`) gives the template back |
| RuleSyntax.StepRenders | ldp/binding.py:19-30 | one match step loses no text: head + rendered placeholder + tail is the input |
| RuleSyntax.Variables | ldp/binding.py:143-165 | the variable names of the placeholders, at most one per part |
| RuleSyntax.VariablesAppend | ldp/binding.py:143-165 | the variable names of a concatenation are the concatenation of the names |
| UriTemplate.UnknownConverterFallsBack | ldp/binding.py:149-177 | the compiler and `get_converter` agree on known converter names; on an unknown name the compiler uses `default`, while `get_converter` fails |
| UriTemplate.ExclusionEnd | ldp/binding.py:154-158 | the end of the greedy `\[(.*\/.*)\]` group, when the regex starts with such a class |
| UriTemplate.FindExclusion | ldp/binding.py:158 | `find` locates the excluded characters right after the `[`, so `<` is inserted at the end of the class body |
| UriTemplate.Widen | ldp/binding.py:153-160 | a regex without a `/`-excluding class is unchanged; otherwise `<` is inserted before the class's `]` unless already excluded |
| UriTemplate.WidenSlashClass | ldp/binding.py:153-160 | a regex opening with the class `[^/]` and holding no other `]` gets `<` inserted before that class's `]` and is otherwise kept |
| UriTemplate.WidenWithoutClose | ldp/binding.py:153-160 | a regex without `]` is kept |
| UriTemplate.WidenConverters | ldp/binding.py:153-160 | on werkzeug's converter regexes: the default `[^/]+` becomes `[^/<]+`, the path `[^/].*?` becomes `[^/<].*?`, and the integer `\d+` is unchanged |
| UriTemplate.WidenWidened | ldp/binding.py:157 | widening is idempotent on an already widened class |
| UriTemplate.GroupIdInjective | ldp/binding.py:161 | distinct placeholder numbers give distinct group ids `id{n}` |
| UriTemplate.ParseRule | ldp/binding.py:137-167 | the loop of `parsed_rule` builds exactly the specified pattern, the template with literal text verbatim, and the group-id map; the template is the escaped one when no literal holds a brace |
| UriTemplate.ParsePart | ldp/binding.py:143-165 | one loop step extends the three results by one part and keeps the placeholder count |
| UriTemplate.LitStep | ldp/binding.py:144-146 | a literal adds a literal token to the pattern, its text verbatim to the template, and nothing to the map |
| UriTemplate.PlaceholderStep | ldp/binding.py:147-165 | the `n`-th placeholder adds group `id{n}` with the widened converter regex, `{name}` to the template, and `id{n} -> name` to the map |
| UriTemplate.PatternTokens | ldp/binding.py:143-165 | one token per part, in order; the `n`-th placeholder is group `id{n}` |
| UriTemplate.ArgMapGroups | ldp/binding.py:161-162 | `argmap[id{n}]` is the `n`-th placeholder's variable, and every key is such an id |
| UriTemplate.ArgumentsAreVariables | ldp/binding.py:191-193 | `arguments` is exactly the set of placeholder variable names, a repeated name counting once |
| UriTemplate.FormatTemplate | ldp/binding.py:131-132 | formatting an escaped template either gives the filled identifier (all variables bound) or fails on a missing variable of the template |
| UriTemplate.FormatEscaped | ldp/binding.py:131-132 | escaped literal text formats to itself |
| UriTemplate.FormatField | ldp/binding.py:131-132 | a `{name}` field formats to `str` of its argument, or fails with the missing name |
| UriTemplate.UrirefFills | ldp/binding.py:131-132 | the corrected `uriref` succeeds iff every variable has an argument; it then gives the filled identifier, and otherwise reports a missing variable of the template |
| UriTemplate.EscapeWithoutBraces | ldp/binding.py:146 | literal text without braces needs no escaping |
| UriTemplate.TemplateWithoutBraces | ldp/binding.py:146 | for brace-free literal text the template as written and the escaped template coincide |
| UriTemplate.UrirefAsWrittenAgrees | ldp/binding.py:131-146 | on a template whose literal text holds no brace, the source's `uriref` and the corrected one give the same identifier or the same error |
| UriTemplate.BracedAsWritten | ldp/binding.py:144-163 | as written, `{<c>}` with `c = "x"` formats to `{c}`, not `{x}` |
| UriTemplate.LoneCloseAsWritten | ldp/binding.py:144-163 | as written, `a}<c>` fails in `str.format` with a single `}` |
| UriTemplate.BracedEscaped | ldp/binding.py:131-132 | with escaped literals, `{<c>}` with `c = "x"` gives `{x}` |
| UriTemplate.LoneCloseEscaped | ldp/binding.py:131-132 | with escaped literals, `a}<c>` with `c = "x"` gives `a}x` |
| UriTemplate.PartsOfBraced | ldp/binding.py:36-46 | `{<c>}` scans to `{`, `<c>`, `}` |
| UriTemplate.PartsOfLoneClose | ldp/binding.py:36-46 | `a}<c>` scans to `a}`, `<c>`, the empty rest |
| Ranking.SortProperties | ldp/binding.py:107-110 | the sort keeps length and elements (a permutation), orders by key ascending, and keeps the order of equal keys |
| Ranking.SortPermutes | ldp/binding.py:107-110 | the sort is a permutation |
| Ranking.SortSorted | ldp/binding.py:107-110 | the sort orders by key, ascending |
| Ranking.SortStable | ldp/binding.py:107-110 | the sort is stable: elements of each key keep their order |
| Ranking.InsertPermutes | ldp/binding.py:107-110 | insertion adds exactly the element |
| Ranking.InsertSorted | ldp/binding.py:107-110 | insertion keeps a sorted sequence sorted |
| Ranking.InsertWithKey | ldp/binding.py:107-110 | insertion after all equal keys appends to the elements of its key |
| Bindings.OfEndpoint | ldp/binding.py:82 | the bindings of one endpoint are exactly those registered with it |
| Bindings.IndexAdd | ldp/binding.py:82 | `setdefault(endpoint, []).append(rule)` on the per-endpoint index |
| Bindings.BindingFills | ldp/binding.py:131-132 | a binding formats iff its arguments are among the given names, and then gives the filled template |
| Bindings.BindingFillsAsWritten | ldp/binding.py:131-132 | the source's own `uriref` of a binding without braces in its literal text formats iff its arguments are among the given names, and then gives the filled template |
| Bindings.Suitable | ldp/binding.py:103-105 | the filter keeps exactly the bindings whose arguments are a subset of the available names |
| Bindings.RulesWithSuitableArgs | ldp/binding.py:102-112 | `None` iff no binding qualifies; otherwise exactly the qualifying bindings, as a permutation, sorted by unused names ascending, ties in registration order |
| Bindings.ExactFirst | ldp/binding.py:102-112 | a binding using exactly the available names, alone in doing so, is ranked first |
| Bindings.ResourceMap.constructor | ldp/binding.py:52-61 | the map holds the initial bindings in order, with the default converters updated by the extra ones |
| Bindings.ResourceMap.Add | ldp/binding.py:74-82 | the binding is appended to the global list and to its endpoint's list; the index stays consistent |
| Bindings.ResourceMap.Get | ldp/binding.py:84-85 | `None` for an endpoint without bindings, else its bindings in registration order |
| Bindings.ResourceMap.IterRules | ldp/binding.py:63-72 | all bindings without an endpoint; the endpoint's bindings with one; `KeyError` for an unknown endpoint |
| Bindings.ResourceMap.EndpointRules | ldp/binding.py:91-100 | `None` iff no binding of the endpoint qualifies; otherwise the ranking of the endpoint's bindings |
| ReverseLookup.Order | ldp/helpers.py:10 | a group tries every length up to that of the rest: longest first when greedy, shortest first when lazy |
| ReverseLookup.TryGroupUnique | ldp/helpers.py:10 | when exactly one length works, the group takes it whatever the engine's order |
| ReverseLookup.GatherValues | ldp/helpers.py:13-18 | the gathered arguments are named after the captures, each holding one of its captures' values |
| ReverseLookup.GatherOmits | ldp/helpers.py:15-18 | a binding is omitted exactly when two captures of one variable disagree |
| ReverseLookup.KeptAgree | ldp/helpers.py:15-19 | when nothing is omitted every capture agrees with the gathered value of its variable |
| ReverseLookup.GatherArgs | ldp/helpers.py:13-18 | the inner loop computes the specified arguments and `omit_rule` flag |
| ReverseLookup.CapturesMapped | ldp/helpers.py:14-15 | every capture of a binding's pattern has an `argmap` entry |
| ReverseLookup.TryBindingMeaning | ldp/helpers.py:10-20 | no match gives nothing; a match gives nothing iff a variable disagrees, and otherwise exactly the captured value of every variable |
| ReverseLookup.EndpointFor | ldp/helpers.py:8-21 | the loop over the bindings returns exactly the specified lookup |
| ReverseLookup.LookupFirst | ldp/helpers.py:9-21 | `(None, None)` iff no binding accepts; otherwise the endpoint and arguments of the first binding that accepts, in registration order |
| RoundTrip.RoundTrip | ldp/helpers.py:8-20 | with one binding, `endpoint_for(uriref(**v))` gives the binding's endpoint and `v` restricted to its variables, under the stated conditions on the values |
| RoundTrip.RoundTripAsWritten | ldp/helpers.py:8-20 | the same round trip through the source's own `uriref`, for a template without braces in its literal text |
| RoundTrip.CapturesGiveValues | ldp/helpers.py:13-20 | captures that hold the values of their variables give back exactly those values |
| RoundTrip.MatchFill | ldp/binding.py:143-165 | the compiled pattern matches the filled identifier with each group capturing its variable's value |
| RoundTrip.OtherEndsFail | ldp/binding.py:154-164 | a group followed by non-empty literal text cannot end anywhere but at the end of its value |
| RoundTrip.FillTextIsFill | ldp/binding.py:131-132 | the identifier for text values is the formatted template |
| HeaderMatch.ToPython | ldp/rule.py:62-67 | `to_python`: the default and `any` converters keep the text; the integer converter gives the digits' value within its bounds and length, and fails otherwise |
| HeaderMatch.IntConverts | ldp/rule.py:65 | the plain integer converter takes every digit string to its number |
| HeaderMatch.Glob | ldp/rule.py:93 | the translation of a glob has no capture groups |
| HeaderMatch.PlainGlob | ldp/rule.py:93 | glob text without `*`, `?` or `[` stands for itself |
| HeaderMatch.GlobPlainThen | ldp/rule.py:93 | a glob starting with plain text translates that text to itself |
| HeaderMatch.GlobClassThen | ldp/rule.py:93 | a closed class `[body]` translates to one class element |
| HeaderMatch.LengthsCover | ldp/rule.py:57-58 | every length an element can match is among those it tries |
| HeaderMatch.MatchSound | ldp/rule.py:57-61 | a match cuts the whole value into pieces, one per element, and its captures are the cut's |
| HeaderMatch.MatchComplete | ldp/rule.py:57-61 | every cut of a value into fitting pieces is found |
| HeaderMatch.MatchIff | ldp/rule.py:118-121 | a value matches iff the whole of it can be cut into pieces fitting the pattern |
| HeaderMatch.LitsPrefix | ldp/rule.py:93 | a literal prefix consumes exactly itself and captures nothing |
| HeaderRule.PatternGroups | ldp/rule.py:91-111 | the groups of a compiled pattern are exactly its variables |
| HeaderRule.Patterns | ldp/rule.py:44-47 | the compiled patterns keep the declared header names and order |
| HeaderRule.AddPartsEffect | ldp/rule.py:106-111 | compiling a pattern adds exactly its variables to `arguments`, gives each a converter and keeps other converters |
| HeaderRule.CompileAllEffect | ldp/rule.py:44-47 | compiling every declared header adds exactly their variables to `arguments` and a converter for each |
| HeaderRule.CompiledCovered | ldp/rule.py:106-108 | after compilation every group of every pattern has a converter |
| HeaderRule.CapturesNamed | ldp/rule.py:61 | a successful match captures exactly the pattern's groups |
| HeaderRule.Converted | ldp/rule.py:62-68 | conversion succeeds iff every capture converts, and then adds exactly the captured names |
| HeaderRule.RuleMatch | ldp/rule.py:50-54 | without declared headers, request headers or a path match the path match is returned; a header match needs every declared header name in the request |
| HeaderRule.HeaderMatchesMeaning | ldp/rule.py:56-70 | the header loop succeeds iff every declared header's value matches and converts |
| HeaderRule.HeaderMatchesKeys | ldp/rule.py:62-74 | a successful header loop adds exactly the header variables, and the defaults when a header is declared, to the path values |
| HeaderRule.WholeValues | ldp/rule.py:56-60 | a successful header match cut each declared header's whole value |
| HeaderRule.PieceWeights | ldp/rule.py:95-97 | the static weights are those of the specified split |
| HeaderRule.HeadersRule.constructor | ldp/rule.py:35-48 | a new rule is not compiled and carries its declared headers, defaults and the path rule's tables |
| HeaderRule.HeadersRule.CompileHeaderRule | ldp/rule.py:77-121 | the compiled pattern, and the tables extended by the pattern's converters, trace, weights and arguments |
| HeaderRule.HeadersRule.BuildPart | ldp/rule.py:91-111 | one parsed piece added to the pattern and tables |
| HeaderRule.HeadersRule.CompileOnce | ldp/rule.py:42-48 | header patterns are compiled at most once: a second call changes nothing |
| HeaderRule.HeadersRule.Match | ldp/rule.py:40-75 | compile once, then answer the specified header-aware match |
| HeaderRule.HeadersRule.MatchHeaders | ldp/rule.py:56-74 | the loop over declared headers computes the specified merge |
| HeaderRule.HeadersRule.ConvertCaptures | ldp/rule.py:62-68 | the conversion loop computes the specified conversion |
| HeaderExamples.AcceptGlob | test/development/test_headers_based_rule.py:110-133 | the glob `text/*` admits `text/turtle` and not `XXX/turtle` |
| HeaderExamples.ClassStep | test/development/test_headers_based_rule.py:94-102 | `public,[ \t]max-age=<int:max_age>` matches a tab or a space and captures `30` |
| HeaderExamples.TwoSpaces | test/development/test_headers_based_rule.py:104-105 | the class takes one character only: two spaces do not match |
| HeaderExamples.CacheControlMatch | test/development/test_headers_based_rule.py:446-454 | `/23` with `Cache-Control: public, max-age=30` gives `x = 23, max_age = 30` |
| HeaderExamples.CacheControlRejects | test/development/test_headers_based_rule.py:452-457 | `max-age=xx` fails conversion and a missing header fails the route |
| BindableRules.RefsMeaning | ldp/rule.py:178-181 | identifiers are computed iff every resource variable's arguments are matched; the merge adds one identifier per resource variable and keeps the rest |
| BindableRules.ResourceRefs | ldp/rule.py:178-181 | the loop over the resource variables fails iff some template cannot be filled, else gives the merged match |
| BindableRules.BindableRule.constructor | ldp/rule.py:151-158 | parent, context and selectors as given; no resource variables yet |
| BindableRules.BindableRule.VarsInUse | ldp/rule.py:174-177 | the parent's resource variables when a parent is set, else the rule's own |
| BindableRules.BindableRule.Match | ldp/rule.py:171-182 | no header match gives `None`; otherwise the match plus one identifier per resource variable in use, failing iff one cannot be formatted |
| Store.RuleContext | ldp/rule.py:160-169 | the aggregation of all graphs is refused (`TypeError`); any other context is returned |
| Store.QuadStore.constructor | ldp/rule.py:201-206 | the store holds the given dataset and pool |
| Store.QuadStore.Resource | ldp/rule.py:212-221 | the lookup changes the store and answers as the specified resolution does |
| Store.QuadStore.MoveToPool | ldp/rule.py:230-247 | the selected statements leave the dataset and form the identifier's pool graph; `None` when none was selected |
| Store.ProgressDone | ldp/rule.py:223-228 | the migration loop has selected exactly the candidates that pass the selectors |
| Store.SweepDone | ldp/rule.py:242-247 | at the end of the loop the dataset lost exactly the selected statements and the pool graph holds their triples |
| Store.Migration | ldp/rule.py:217-247 | after resolving an unpooled identifier it is pooled; a statement leaves the dataset iff it is about the identifier, in the context and selected; the pool graph holds exactly those triples; `None` iff none was selected; other pool graphs are unchanged |
| Store.OthersUntouched | ldp/rule.py:235-244 | statements about other identifiers are never touched |
| Store.DrainsContext | ldp/rule.py:242-243 | without user selectors every statement about the identifier in its context moves |
| Store.ResolveAgain | ldp/rule.py:212-216 | a second lookup answers from the pool and changes nothing; after a miss it answers the empty graph |
| LdpTypes.Rsearch | ldp/resource.py:50 | `rsearch(t)` starts at `t`, follows parents and ends at a root |
| LdpTypes.RsearchFalls | ldp/resource.py:50 | ranks fall strictly along a chain, so no type repeats |
| LdpTypes.TypeTree | ldp/resource.py:15-34 | the seven listed types are distinct and form a tree rooted at Resource, every other listed type having a parent |
| LdpTypes.ChainToResource | ldp/resource.py:15-34 | the chain above any listed type ends at Resource |
| LdpTypes.RsearchBasicContainer | ldp/resource.py:17-21 | BasicContainer's chain is BasicContainer, Container, RDFSource, Resource |
| LdpTypes.ImpliedTypes | ldp/resource.py:44-54 | the loops of `implied_types` compute the specified sequence |
| LdpTypes.Ancestors | ldp/resource.py:50-54 | the inner loop yields the ancestors neither explicit nor yielded before |
| LdpTypes.ImpliedMeaning | ldp/resource.py:44-54 | a type is yielded iff it is on the chain of a known explicit type; explicit types the tree holds keep their multiplicity, unknown ones are skipped, other types come at most once |
| LdpTypes.WalkMembers | ldp/resource.py:46-54 | the types the rest of the walk yields |
| LdpTypes.WalkCounts | ldp/resource.py:47-49 | how often the walk yields an explicit type |
| LdpTypes.WalkOnce | ldp/resource.py:51-54 | an implied type is yielded at most once, and never again once recorded |
| LdpTypes.ImpliedBasicContainer | ldp/resource.py:44-54 | `implied_types(BasicContainer)` is BasicContainer, Container, RDFSource, Resource |
| LdpTypes.Graph.constructor | ldp/resource.py:81 | a graph holding the given statements |
| LdpTypes.Graph.Add | ldp/resource.py:91 | `add` inserts one statement |
| LdpTypes.Graph.Remove | ldp/resource.py:88 | `remove` deletes one statement |
| LdpTypes.ReplaceResource | ldp/resource.py:80-91 | afterwards the graph holds exactly the new statements; only statements outside the new set are removed, and only those outside the old set are added |
| LdpTypes.RemoveEach | ldp/resource.py:87-88 | the first loop removes the given statements |
| LdpTypes.AddEach | ldp/resource.py:90-91 | the second loop adds the given statements |
| LdpTypes.MimeHeaderMatch | ldp/resource.py:107-110 | the derived rules' header admits exactly the two media types of `MIME_FORMAT`, capturing the value as `mimetype` |
| LdpTypes.BuildPutRule | ldp/resource.py:97-113 | one derived rule: the parent's path with a `Content-Type` constraint, endpoint `.ldp.put`, method PUT, parent set |
| LdpTypes.BuildGetRule | ldp/resource.py:115-129 | one derived rule: the parent's path with an `Accept` constraint, endpoint `.ldp.get`, method GET, parent set |
| LdpTypes.DerivedEndpointsDiffer | ldp/resource.py:112-128 | the PUT and GET rules of one parent have different endpoints |
| LdpTypes.AdapterTypes | ldp/binding.py:307-314 | the adapter's types hold Resource, every declared type and every stated listed type, and nothing else |
| App.RegisterMeaning | ldp/app.py:46-63 | the binding is always added when an endpoint can be named; registration fails iff the endpoint already has a different view, and otherwise records the view |
| App.RegisterKeepsViews | ldp/app.py:58-63 | no registration replaces or removes a view; the only view added is the given one |
| App.LdpApp.constructor | ldp/app.py:27-30 | an application with no bindings and no views |
| App.LdpApp.AddResourceRule | ldp/app.py:46-63 | the registry after the call is the specified registration |
| App.LdpApp.DispatchRequest | ldp/app.py:74-93 | the store and the response are those of the specified dispatch |
| App.TryRules | ldp/app.py:85-89 | the loop over the ranked bindings is the specified first-resolving search |
| App.FirstResolvingStep | ldp/app.py:86-89 | one binding of the search: a hit ends it, a miss moves on in the new store |
| App.Ranked | ldp/app.py:79-80 | `endpoint_rules(req.endpoint, req.view_args)`: `None` iff no binding of the endpoint applies, else exactly those that do |
| App.DispatchMeaning | ldp/app.py:74-93 | a routing exception comes first; dispatch is ordinary iff no binding applies, and then the store is unchanged |
| App.NeverFormatError | ldp/app.py:85-89 | ranked bindings always format, so dispatch never fails formatting |
| App.RankedFormat | ldp/app.py:85-89 | bindings whose arguments are all among the view arguments always format |
| App.NotFoundMeaning | ldp/app.py:85-93 | dispatch ends in `raise None` iff some binding applies and none resolves, and then every applicable binding's identifier has an empty pool graph |
| App.FoundMeaning | ldp/app.py:85-89 | a served resource is pooled with the served statements, and an applicable binding formatted its identifier |
| App.HitIsFirst | ldp/app.py:85-89 | the binding that resolved is the first one that did; every earlier one left an empty pool graph |
| App.MissPoolsEmpty | ldp/app.py:85-93 | when no binding resolves every one tried left an empty pool graph |
| App.PoolKept | ldp/app.py:85-89 | trying bindings never drops or changes an existing pool graph |
| App.ResourceTypes | ldp/app.py:100-103 | the resource's listed `rdf:type` values, or `[RDFSource]` when it has none |
| App.ViewArgs | ldp/app.py:95-98 | without an RDF source wanted the endpoint's view gets the view arguments with the resource as its variable; otherwise the type application takes over |
| Strings.NatToStringInjective | ldp/binding.py:161 | different numbers render differently |
| Strings.SplitJoin | ldp/rule.py:95 | joining the pieces of `split('/')` gives the text back |

## Left out

- Flask, werkzeug and rdflib glue is not modelled. This covers request
  contexts, `raise_routing_exception` (modelled as a `RoutingError`
  response when a routing exception is set, and as `RaisedNone` when it is
  `None`), `_request_ctx_stack` and `_resource_ctx_stack`, namespace
  binding on graphs, and serialisation and `generate_etag` (ldp/resource.py:57-77).
- `get_resource_app` and the full dispatch of the type application are
  opaque. The model stops at a `ResourceApp` response carrying the types.
- `wants_rdfsource` is a boolean field of the request.
- `Pipeline` is modelled as the conjunction of filter predicates.
  `remove_from_context` is the removal every adapter performs on a
  selected statement.
- The regular-expression engine behind `re.match` in `endpoint_for` is an
  abstract acceptance predicate (`Engine`) with a fixed order of candidate
  lengths per group. Group regexes are not interpreted.
- werkzeug's `parse_rule`, `parse_converter_args` and converter classes
  are not modelled. Header patterns start from parsed pieces, and
  converters are the default, `int` and `any` converters, or any other one
  given by its pattern's meaning, its `to_python`, laziness and weight
  (`CustomConv`).
- `Match` tries the cuts of a header value in a backtracking engine's
  order: elements left to right, each trying the lengths `Lengths` lists
  (greedy longest first, lazy shortest first, `any` items as written). It
  is not proved that this is Python's `re` order in every case. Besides the
  two worked examples, the proofs only use whether a cut exists and what it
  captures.
- `fnmatch.translate` is modelled by its meaning (`*`, `?`, `[...]`,
  `[!...]`). The `[:-7]` slice depends on the Python version and is not
  modelled.
- HeaderMatch.Glob: a class with a reversed range such as `[z-a]` makes
  `re.compile` raise `re.error` in the source (ldp/rule.py:121); the model
  reads it as a class that matches nothing, so the header never matches
  instead of the rule failing to compile.
- `RequestAliasRedirect` for alias rules (ldp/rule.py:72-73) is not
  modelled. Rules are taken not to be aliases.
- Precedence between several header-variant rules on one path comes from
  werkzeug's rule sorting and is not modelled.
- `LDPApp.create_url_adapter` and `header_rule_mixin` (per-request header
  injection) are not modelled. Request headers are an explicit argument.
- `URIRefRule` is not part of this model. `URIRefBinding` serves as the
  resource rule.
- `ResourceContextAdapter.urladapter`/`url_for` and `helpers.url_for`
  (URL building) are not modelled, and neither is ldp/tree.py.
- Concurrency: the migration is sequential, as the code has no locking.
- Integers are unbounded, as in Python.
- RoundTrip.RoundTrip: is stated under a condition stronger than strictly
  needed (no value holds any literal character of its template, and a
  placeholder is last or followed by non-empty literal text). Templates
  outside it can still round-trip. It is stated of the corrected `uriref`.
  `RoundTripAsWritten` carries it to the source's own `uriref` only for
  templates without braces in their literal text.
- Bindings.BindingFills: is stated of the corrected `uriref`. For the
  source's own `uriref`, a lone `}` or `{` in literal text raises
  `ValueError` or fills the wrong text whatever the arguments.
  `BindingFillsAsWritten` states it for brace-free templates only.
- App.NeverFormatError: dispatch fills the corrected template. In the
  source, a ranked binding whose literal text holds a lone `}` makes
  `uriref` raise `ValueError` during dispatch. The claim holds of the
  source for brace-free templates (`UrirefAsWrittenAgrees`).
- App.RankedFormat: is stated of the corrected `uriref`, with the same gap
  as `App.NeverFormatError`.
- App.Dispatch, App.LdpApp.DispatchRequest, App.FoundMeaning and
  App.HitIsFirst: identifiers are filled by the corrected `uriref`. For a
  template with braces in its literal text, the source resolves a
  different identifier or raises `ValueError`.
- BindableRules.ResourceRefs, BindableRules.RefsMeaning and
  BindableRules.BindableRule.Match: the identifiers come from the
  corrected `uriref`, with the same gap for templates with braces in their
  literal text.
- HeaderMatch.MatchIff: requires the whole value. Python's `$` also matches
  before one final line break, so `max-age=30` followed by a line break
  matches `max-age=<int:n>` in the source but not in the model. Header
  values are taken to hold no line break.
- HeaderRule.WholeValues: has the same gap as `HeaderMatch.MatchIff`.
- LdpTypes.MimeHeaderMatch: has the same gap as `HeaderMatch.MatchIff`;
  `text/turtle` followed by a line break also matches in the source.
- UriTemplate.UrirefAsWritten: literal text holding a format field other
  than a plain name (`{c[0]}`, `{c!r}`, `{c:>5}`) fails with
  `UnsupportedField`, where Python's `str.format` evaluates the index,
  conversion or format spec (`http://ex/{c[0]}<c>` with `c = "xyz"` gives
  `http://ex/xxyz`).
- HeaderMatch.ToPython: the integer converter takes ASCII digits only.
  werkzeug's `\d+` under `re.UNICODE`, and `int()`, also take other
  decimal digits, such as Arabic-Indic ones. The same holds of
  `HeaderMatch.Accepts` and `Strings.IsDigits`.

## Findings

| source | as written | input that shows it | evidently intended | confidence | as-written member | corrected member |
|---|---|---|---|---|---|---|
| ldp/binding.py:146 | literal template text is appended to the `str.format` template without doubling `{` and `}` | template `{<c>}` with `c = "x"` formats to `{c}`; template `a}<c>` raises `ValueError` (single `}`) | `uriref` gives the literal text verbatim with each placeholder filled: `{x}` and `a}x` | not executed | UriTemplate.BracedAsWritten, UriTemplate.LoneCloseAsWritten | UriTemplate.BracedEscaped, UriTemplate.LoneCloseEscaped, UriTemplate.UrirefFills |
