/** The search as the code runs it: one object collects the bindings, and what it inherits gets in the way. */
module ParamObjects {
  import opened Text
  import opened Objects
  import opened TrieSpec
  import opened RouteTable
  import opened RouteLaws
  import opened Results

  // ----- the object -----------------------------------------------------------------------

  /** A property as it is read, inherited ones included. */
  function Read(o: Params, name: string): Option<Value> {
    if name in o then Some(o[name]) else if name in INHERITED then Some(Builtin) else None
  }

  function Write(o: Params, name: string, v: Value): Params { if name == PROTO then o else o[name := v] }

  /** Put back what was read before a binding. */
  function Undo(o: Params, name: string, prev: Option<Value>): Params {
    if prev.None? then o - {name} else Write(o, name, prev.value)
  }

  // ----- the search -----------------------------------------------------------------------

  datatype Outcome = At(path: Path) | Nowhere | Undecodable

  datatype Walked = Walked(outcome: Outcome, params: Params)

  function WalkNode(c: Trie, opts: Options, p: Path, segments: seq<string>, params: Params, lenient: bool): Walked
    decreases |segments|, 1
  {
    if segments == [] then
      if Registered(c, p) then Walked(At(p), params)
      else if Registered(c, Child(p, Wild)) then Walked(At(Child(p, Wild)), params["wildcard" := Given("")])
      else Walked(Nowhere, params)
    else
      var fixed := if Child(p, Lit(segments[0])) in c
                    then WalkNode(c, opts, Child(p, Lit(segments[0])), segments[1..], params, lenient)
                    else Walked(Nowhere, params);
      if !fixed.outcome.Nowhere? then fixed else WalkParam(c, opts, p, segments, fixed.params, lenient)
  }

  function WalkParam(c: Trie, opts: Options, p: Path, segments: seq<string>, params: Params, lenient: bool): Walked
    requires segments != []
    decreases |segments|, 0
  {
    if Child(p, Par) in c then
      match Decoded(opts, segments[0])
      case None => Walked(if lenient then Nowhere else Undecodable, params)
      case Some(d) =>
        if |d| > opts.paramLength then WalkWild(c, opts, p, segments, params, lenient)
        else
          var name := c[Child(p, Par)].paramName;
          var below := WalkNode(c, opts, Child(p, Par), segments[1..], Write(params, name, Given(d)), lenient);
          if !below.outcome.Nowhere? then below
          else WalkWild(c, opts, p, segments, Undo(below.params, name, Read(params, name)), lenient)
    else WalkWild(c, opts, p, segments, params, lenient)
  }

  function WalkWild(c: Trie, opts: Options, p: Path, segments: seq<string>, params: Params, lenient: bool): Walked {
    if Child(p, Wild) in c then
      match Remainder(opts, segments)
      case None => Walked(if lenient then Nowhere else Undecodable, params)
      case Some(r) =>
        Walked(if Registered(c, Child(p, Wild)) then At(Child(p, Wild)) else Nowhere, params["wildcard" := Given(r)])
    else Walked(Nowhere, params)
  }

  /** The match of the code. */
  function CodeMatch(opts: Options, fast: FastMap, c: Trie, m: string, pathname: string): MatchResult {
    var key := NormalizeLookup(opts, pathname);
    var hit := if key in fast then ForMethod(fast[key], m) else None;
    match hit
    case Some(entry) => Matched(entry.handlers, map[], entry.pattern)
    case None => WalkMatch(opts, c, m, pathname)
  }

  function WalkMatch(opts: Options, c: Trie, m: string, pathname: string): MatchResult {
    var w := WalkNode(c, opts, [], SplitPath(opts, pathname), map[], false);
    match w.outcome
    case Undecodable => BadRequest
    case Nowhere => NoMatch
    case At(path) => Answer(c, path, w.params, m)
  }

  // ----- what it finds --------------------------------------------------------------------

  function OutcomeOf(r: Search): Outcome {
    match r case Found(path, _) => At(path) case Missing => Nowhere case BadEncoding => Undecodable
  }

  /** The names of the params never change which node is found. */
  lemma {:induction false} WalkFinds(c: Trie, opts: Options, p: Path, segments: seq<string>, params: Params, o: Params,
                                     lenient: bool)
    ensures WalkNode(c, opts, p, segments, o, lenient).outcome == OutcomeOf(Find(c, opts, p, segments, params, lenient))
    decreases |segments|
  {
    hide WalkParam, FindDynamic, Write, Child, Registered, Decoded;
    if segments != [] {
      var rest := segments[1..];
      var l, q := Child(p, Lit(segments[0])), Child(p, Par);
      var after := o;
      if l in c {
        WalkFinds(c, opts, l, rest, params, o, lenient);
        after := WalkNode(c, opts, l, rest, o, lenient).params;
      }
      if q in c && Decoded(opts, segments[0]).Some? {
        var name, d := c[q].paramName, Given(Decoded(opts, segments[0]).value);
        WalkFinds(c, opts, q, rest, params[name := d], Write(after, name, d), lenient);
      }
      ParamFinds(c, opts, p, segments, params, after, lenient);
    }
  }

  lemma ParamFinds(c: Trie, opts: Options, p: Path, segments: seq<string>, params: Params, o: Params, lenient: bool)
    requires segments != []
    requires var q := Child(p, Par);
             q in c && Decoded(opts, segments[0]).Some? ==>
               var name, d := c[q].paramName, Given(Decoded(opts, segments[0]).value);
               WalkNode(c, opts, q, segments[1..], Write(o, name, d), lenient).outcome
               == OutcomeOf(Find(c, opts, q, segments[1..], params[name := d], lenient))
    ensures WalkParam(c, opts, p, segments, o, lenient).outcome
            == OutcomeOf(FindDynamic(c, opts, p, segments, params, lenient))
  {
    hide WalkNode, Find, Write, Undo, Child, Registered, Decoded;
  }

  /** No param child bears an inherited name. */
  ghost predicate SafeNames(c: Trie) {
    forall p {:trigger Child(p, Par)} :: Child(p, Par) in c ==> c[Child(p, Par)].paramName !in INHERITED
  }

  ghost predicate WalksAs(w: Walked, r: Search, o: Params) {
    match r
    case Found(path, params) => w == Walked(At(path), params)
    case Missing => w == Walked(Nowhere, o)
    case BadEncoding => w.outcome.Undecodable?
  }

  /** Without inherited names the code computes the specified search: after a miss all bindings are as before. */
  lemma {:induction false} SafeWalk(c: Trie, opts: Options, p: Path, segments: seq<string>, o: Params, lenient: bool)
    requires SafeNames(c) && WellFormed(c)
    ensures WalksAs(WalkNode(c, opts, p, segments, o, lenient), Find(c, opts, p, segments, o, lenient), o)
    decreases |segments|
  {
    hide FindWild, WalkWild, WellFormed, SafeNames, INHERITED, Write, Undo;
    if segments != [] {
      var rest := segments[1..];
      var l, q := Child(p, Lit(segments[0])), Child(p, Par);
      if l in c { SafeWalk(c, opts, l, rest, o, lenient); }
      SafeWild(c, opts, p, segments, o, lenient);
      if q in c && Decoded(opts, segments[0]).Some? {
        var name, d := c[q].paramName, Given(Decoded(opts, segments[0]).value);
        SafeName(c, p);
        UndoRestores(o, name, d);
        SafeWalk(c, opts, q, rest, o[name := d], lenient);
      }
    }
  }

  lemma SafeName(c: Trie, p: Path)
    requires SafeNames(c) && Child(p, Par) in c
    ensures c[Child(p, Par)].paramName !in INHERITED
  {
  }

  lemma SafeWild(c: Trie, opts: Options, p: Path, segments: seq<string>, o: Params, lenient: bool)
    requires WellFormed(c)
    ensures WalksAs(WalkWild(c, opts, p, segments, o, lenient), FindWild(c, opts, p, segments, o, lenient), o)
  {
    if Child(p, Wild) in c {
      assert EndsWild(Child(p, Wild));
      assert Registered(c, Child(p, Wild));
    }
  }

  /** Taking back the binding of a name that is not inherited gives the bindings before it. */
  lemma UndoRestores(o: Params, name: string, v: Value)
    requires name !in INHERITED
    ensures Write(o, name, v) == o[name := v] && Undo(o[name := v], name, Read(o, name)) == o
  {
  }

  /**
   After any registrations and for every decodable path, the code finds the pattern that precedes all other matching
   ones, and none exactly when none matches; it reports exactly the bindings of that pattern if no name is inherited.
   */
  lemma CodeFindsBest(opts: Options, routes: seq<Route>, segments: seq<string>, lenient: bool)
    requires Decodable(opts, segments)
    ensures var c := Build(opts, routes);
            var w := WalkNode(c, opts, [], segments, map[], lenient);
            match w.outcome
            case Undecodable => false
            case Nowhere => forall p :: !Answers(opts, routes, segments, p)
            case At(best) =>
              && Answers(opts, routes, segments, best)
              && (forall p | Answers(opts, routes, segments, p) && p != best :: Precedes(best, p))
              && (SafeNames(c) ==> w.params == Bindings(c, opts, [], best, segments, map[]))
  {
    hide *;
    var c := Build(opts, routes);
    SearchFindsBest(opts, routes, segments, lenient);
    WalkFinds(c, opts, [], segments, map[], map[], lenient);
    OutcomeIs(Find(c, opts, [], segments, map[], lenient));
    BuildWellFormed(opts, routes);
    if SafeNames(c) {
      SafeWalk(c, opts, [], segments, map[], lenient);
      WalkedIs(WalkNode(c, opts, [], segments, map[], lenient), Find(c, opts, [], segments, map[], lenient), map[]);
    }
  }

  lemma OutcomeIs(r: Search)
    ensures r.Found? ==> OutcomeOf(r) == At(r.path)
    ensures r.Missing? ==> OutcomeOf(r) == Nowhere
    ensures r.BadEncoding? ==> OutcomeOf(r) == Undecodable
  {
  }

  lemma WalkedIs(w: Walked, r: Search, o: Params)
    requires WalksAs(w, r, o)
    ensures r.Found? ==> w == Walked(At(r.path), r.params)
    ensures r.Missing? ==> w == Walked(Nowhere, o)
  {
  }

  /** The same answer, params aside. */
  predicate SameTarget(a: MatchResult, b: MatchResult) {
    if a.Matched? then b.Matched? && a.handlers == b.handlers && a.routePath == b.routePath else a == b
  }

  /** A request is answered by the handlers of the specified match, and with its params if no name is inherited. */
  lemma CodeMatchTargets(opts: Options, fast: FastMap, c: Trie, m: string, pathname: string)
    requires WellFormed(c)
    ensures SameTarget(CodeMatch(opts, fast, c, m, pathname), FastMatch(opts, fast, c, m, pathname))
    ensures SafeNames(c) ==> CodeMatch(opts, fast, c, m, pathname) == FastMatch(opts, fast, c, m, pathname)
  {
    hide WalkNode, Find, SplitPath, NormalizeLookup, WellFormed, SafeNames, ForMethod;
    var segments := SplitPath(opts, pathname);
    WalkFinds(c, opts, [], segments, map[], map[], false);
    if SafeNames(c) { SafeWalk(c, opts, [], segments, map[], false); }
    AnswerTargets(c, WalkNode(c, opts, [], segments, map[], false), Find(c, opts, [], segments, map[], false), m);
    hide Answer;
  }

  lemma AnswerTargets(c: Trie, w: Walked, r: Search, m: string)
    ensures w.outcome.At? && r.Found? && w.outcome.path == r.path ==>
              SameTarget(Answer(c, w.outcome.path, w.params, m), Answer(c, r.path, r.params, m))
  {
  }

  /** The methods of the node that the lenient walk finds are the allowed ones. */
  lemma AllowedAreFound(opts: Options, c: Trie, pathname: string)
    ensures var w := WalkNode(c, opts, [], SplitPath(opts, pathname), map[], true);
            AllowedMethods(opts, c, pathname)
            == if w.outcome.At? && w.outcome.path in c then c[w.outcome.path].methods else []
  {
    hide WalkNode, Find, SplitPath;
    WalkFinds(c, opts, [], SplitPath(opts, pathname), map[], map[], true);
  }

  // ----- when the names are safe ----------------------------------------------------------

  predicate IsParam(segment: string) { segment != "" && segment[0] == ':' }

  ghost predicate NamesIn(segments: seq<string>, names: set<string>) {
    forall s | s in segments && IsParam(s) :: s[1..] in names
  }

  /** All param names in these patterns are in `names`. */
  ghost predicate Uses(opts: Options, routes: seq<Route>, names: set<string>) {
    forall i | 0 <= i < |routes| :: NamesIn(SplitPath(opts, routes[i].path), names)
  }

  ghost predicate Named(c: Trie, names: set<string>) {
    forall p {:trigger Child(p, Par)} :: Child(p, Par) in c ==> c[Child(p, Par)].paramName in names
  }

  lemma {:induction false} AddNodesNamed(c: Trie, p: Path, segments: seq<string>, names: set<string>)
    requires Named(c, names) && NamesIn(segments, names)
    ensures Named(AddNodes(c, p, segments), names)
    decreases |segments|
  {
    if segments == [] || (segments[0] == "*" && |segments| > 1) || segments[0] == ":" {
    } else {
      var s := segments[0];
      assert s in segments;
      var q := Child(p, SegmentKey(s));
      var d := Ensure(c, q, s);
      forall r {:trigger Child(r, Par)} | Child(r, Par) in d ensures d[Child(r, Par)].paramName in names {
        if Child(r, Par) !in c { ChildIsInjective(r, Par, p, SegmentKey(s)); }
      }
      forall t | t in segments[1..] && IsParam(t) ensures t[1..] in names { assert t in segments; }
      AddNodesNamed(d, q, segments[1..], names);
    }
  }

  lemma {:induction false} BuildNamed(opts: Options, routes: seq<Route>, names: set<string>)
    requires Uses(opts, routes, names)
    ensures Named(Build(opts, routes), names)
  {
    hide SplitPath;
    if routes == [] {
      forall p {:trigger Child(p, Par)} ensures Child(p, Par) !in EMPTY_TRIE { assert |Child(p, Par)| > 0; }
    } else {
      var init, r := routes[..|routes| - 1], routes[|routes| - 1];
      forall i | 0 <= i < |init| ensures NamesIn(SplitPath(opts, init[i].path), names) { assert init[i] == routes[i]; }
      BuildNamed(opts, init, names);
      assert NamesIn(SplitPath(opts, r.path), names);
      AddNodesNamed(Build(opts, init), [], SplitPath(opts, r.path), names);
      AddRouteNamed(opts, Build(opts, init), r, names);
    }
  }

  lemma AddRouteNamed(opts: Options, c: Trie, r: Route, names: set<string>)
    requires [] in c && Named(AddNodes(c, [], SplitPath(opts, r.path)), names)
    ensures Named(AddRoute(opts, c, r), names)
  {
    hide SplitPath, AddNodes, Child;
    AddNodesKeeps(c, [], SplitPath(opts, r.path));
    if PatternOf(SplitPath(opts, r.path)).Pattern? {
      AddNodesReaches(c, [], SplitPath(opts, r.path));
      var keys := PatternOf(SplitPath(opts, r.path)).keys;
      assert [] + keys == keys;
    }
  }

  /** The code binds for these segments what the best pattern binds. */
  ghost predicate BindsExactly(opts: Options, routes: seq<Route>, segments: seq<string>) {
    var c := Build(opts, routes);
    WalksAs(WalkNode(c, opts, [], segments, map[], false), Find(c, opts, [], segments, map[], false), map[])
  }

  lemma SafeRoutes(opts: Options, routes: seq<Route>, names: set<string>)
    requires Uses(opts, routes, names) && names !! INHERITED
    ensures SafeNames(Build(opts, routes))
  {
    hide Build, INHERITED;
    BuildNamed(opts, routes, names);
    hide SplitPath;
  }

  /**
   Patterns with param names of a set bind exactly, whatever they are, in whatever order they are registered, for
   every path and all options, if and only if no name of the set is inherited.
   */
  lemma BindingsAreExact(names: set<string>)
    ensures (forall opts, routes, segments | Uses(opts, routes, names) :: BindsExactly(opts, routes, segments))
            <==> names !! INHERITED
  {
    hide *;
    if names !! INHERITED {
      forall opts, routes, segments | Uses(opts, routes, names) ensures BindsExactly(opts, routes, segments) {
        AlwaysExact(opts, routes, names, segments);
      }
    } else {
      var name :| name in names && name in INHERITED;
      InheritedIsInexact(name, names);
    }
  }

  lemma AlwaysExact(opts: Options, routes: seq<Route>, names: set<string>, segments: seq<string>)
    requires Uses(opts, routes, names) && names !! INHERITED
    ensures BindsExactly(opts, routes, segments)
  {
    hide Build, Find, WalkNode, INHERITED, Uses, WalksAs;
    SafeRoutes(opts, routes, names);
    BuildWellFormed(opts, routes);
    SafeWalk(Build(opts, routes), opts, [], segments, map[], false);
  }

  lemma Differ(opts: Options, routes: seq<Route>, segments: seq<string>)
    requires var c := Build(opts, routes);
             var w, r := WalkNode(c, opts, [], segments, map[], false), Find(c, opts, [], segments, map[], false);
             r.Found? && w.params != r.params
    ensures !BindsExactly(opts, routes, segments)
  {
  }

  /** Some path shows the difference. */
  lemma InheritedIsInexact(name: string, names: set<string>)
    requires name in INHERITED && name in names
    ensures exists opts, routes, segments :: Uses(opts, routes, names) && !BindsExactly(opts, routes, segments)
  {
    hide *;
    InheritedIsPlain(name);
    var opts := Options(false, 1, s => None);
    var routes := TwoRoutes(name, Handler(0));
    TwoRoutesUse(opts, name, Handler(0), names);
    var segments := SomeSegments(opts, name, Handler(0));
  }

  lemma SomeSegments(opts: Options, name: string, h: Handler) returns (segments: seq<string>)
    requires name in INHERITED && opts.paramLength >= 1
    ensures !BindsExactly(opts, TwoRoutes(name, h), segments)
  {
    hide *;
    if name == PROTO {
      segments := ["a", "x"];
      ProtoIsLost(opts, h);
      assert PROTO in map[PROTO := Given("a")];
    } else {
      segments := ["a", "y"];
      InheritedNameStays(opts, name, h);
      WildcardIsOwn(name);
    }
    Differ(opts, TwoRoutes(name, h), segments);
  }

  lemma WildcardIsOwn(name: string)
    requires name in INHERITED
    ensures map[name := Builtin, "wildcard" := Given("a/y")] != map["wildcard" := Given("a/y")]
  {
    assert "wildcard" !in INHERITED by { assert "wildcard"[0] == 'w'; }
    assert name in map[name := Builtin, "wildcard" := Given("a/y")];
  }

  // ----- the inputs -----------------------------------------------------------------------

  /** A param with a segment behind it, and a wildcard that takes the rest. */
  function TwoRoutes(name: string, h: Handler): seq<Route> {
    [Route("GET", "/:" + name + "/x", [h]), Route("GET", "/*", [h])]
  }

  predicate IsNameChar(c: char) { 'a' <= c <= 'z' || 'A' <= c <= 'Z' || c == '_' }

  predicate PlainName(name: string) { name != "" && forall i | 0 <= i < |name| :: IsNameChar(name[i]) }

  lemma InheritedIsPlain(name: string)
    requires name in INHERITED
    ensures PlainName(name)
  {
    hide PlainName;
    PlainWords();
    PlainAccessors();
  }

  lemma PlainWords()
    ensures PlainName("constructor") && PlainName("hasOwnProperty") && PlainName("isPrototypeOf")
    ensures PlainName("propertyIsEnumerable") && PlainName("toLocaleString") && PlainName("toString")
    ensures PlainName("valueOf")
  {
  }

  lemma PlainAccessors()
    ensures PlainName("__proto__") && PlainName("__defineGetter__") && PlainName("__defineSetter__")
    ensures PlainName("__lookupGetter__") && PlainName("__lookupSetter__")
  {
  }

  lemma TwoPaths(opts: Options, name: string)
    requires PlainName(name)
    ensures SplitPath(opts, "/:" + name + "/x") == [":" + name, "x"] && SplitPath(opts, "/*") == ["*"]
  {
    FirstPath(opts, name);
    hide PlainName, IsNameChar;
    SplitPlain("*", '/');
    assert "/*"[1..] == "*";
  }

  lemma FirstPath(opts: Options, name: string)
    requires PlainName(name)
    ensures SplitPath(opts, "/:" + name + "/x") == [":" + name, "x"]
  {
    var path := "/:" + name + "/x";
    assert path[0] == '/' && path[|path| - 1] == 'x' && '?' !in path && '#' !in path;
    assert path[1..] == ":" + name + "/" + "x";
    assert '/' !in ":" + name;
    hide PlainName, IsNameChar;
    SplitPlain("x", '/');
    SplitBehind(":" + name, '/', "x");
  }

  ghost function FirstTrie(name: string, h: Handler): Trie {
    map[[] := NewInfo(""), [Par] := NewInfo(name),
        [Par, Lit("x")] := Info("", map["GET" := [h]], "/:" + name + "/x", ["GET"])]
  }

  ghost function TwoTrie(name: string, h: Handler): Trie {
    FirstTrie(name, h)[[Wild] := Info("wildcard", map["GET" := [h]], "/*", ["GET"])]
  }

  lemma TwoRoutesTrie(opts: Options, name: string, h: Handler)
    requires PlainName(name)
    ensures Build(opts, TwoRoutes(name, h)) == TwoTrie(name, h)
  {
    TwoPaths(opts, name);
    assert name != "";
    hide *;
    var r, w := Route("GET", "/:" + name + "/x", [h]), Route("GET", "/*", [h]);
    FirstRouteTrie(opts, name, r);
    NoWildFirst(name, h);
    SecondRouteTrie(opts, r, w, FirstTrie(name, h));
    TwoAre(name, h);
  }

  lemma TwoAre(name: string, h: Handler)
    ensures TwoRoutes(name, h) == [Route("GET", "/:" + name + "/x", [h]), Route("GET", "/*", [h])]
    ensures TwoTrie(name, h) == FirstTrie(name, h)[[Wild] := Info("wildcard", map["GET" := [h]], "/*", ["GET"])]
  {
  }

  lemma NoWildFirst(name: string, h: Handler)
    ensures FirstTrie(name, h)
            == map[[] := NewInfo(""), [Par] := NewInfo(name),
                   [Par, Lit("x")] := Info("", map["GET" := [h]], "/:" + name + "/x", ["GET"])]
    ensures [] in FirstTrie(name, h) && [Wild] !in FirstTrie(name, h)
  {
  }

  lemma SecondRouteTrie(opts: Options, r: Route, w: Route, c: Trie)
    requires Build(opts, [r]) == c && [] in c && [Wild] !in c && SplitPath(opts, w.path) == ["*"]
    ensures Build(opts, [r, w]) == c[[Wild] := Info("wildcard", map[w.method_ := w.handlers], w.path, [w.method_])]
  {
    assert NewInfo("wildcard").paramName == "wildcard";
    hide *;
    IsForWild(opts, w);
    Overwritten(c, [Wild], NewInfo("wildcard"), Info("wildcard", map[w.method_ := w.handlers], w.path, [w.method_]));
    NoWildYet(c);
    BuildSnoc(opts, [r], w);
    assert [r] + [w] == [r, w];
    FirstHandlers(opts, c, w, [Wild], c[[Wild] := NewInfo("wildcard")]);
  }

  lemma Overwritten(c: Trie, p: Path, a: Info, b: Info)
    ensures p in c[p := a] && c[p := a][p] == a && c[p := a][p := b] == c[p := b]
  {
  }

  lemma IsForWild(opts: Options, w: Route)
    requires SplitPath(opts, w.path) == ["*"]
    ensures IsFor(opts, w, [Wild])
  {
    hide SplitPath;
    assert PatternOf(["*"]) == Pattern([Wild]);
  }

  lemma NoWildYet(c: Trie)
    requires [Wild] !in c
    ensures AddNodes(c, [], ["*"]) == c[[Wild] := NewInfo("wildcard")]
  {
    assert Child([], SegmentKey("*")) == [Wild] && SegmentName("*") == "wildcard";
    assert ["*"] + [] == ["*"];
    NewNode(c, [], "*", []);
    NoNodes(c[[Wild] := NewInfo("wildcard")], [Wild]);
  }

  lemma NewNode(c: Trie, p: Path, s: string, more: seq<string>)
    requires s != ":" && (s == "*" ==> more == []) && Child(p, SegmentKey(s)) !in c
    ensures var q := Child(p, SegmentKey(s));
            AddNodes(c, p, [s] + more) == AddNodes(c[q := NewInfo(SegmentName(s))], q, more)
  {
    assert ([s] + more)[1..] == more;
  }

  lemma FirstHandlers(opts: Options, c: Trie, r: Route, p: Path, grown: Trie)
    requires [] in c && IsFor(opts, r, p) && AddNodes(c, [], SplitPath(opts, r.path)) == grown
    requires p in grown && grown[p] == NewInfo(grown[p].paramName)
    ensures AddRoute(opts, c, r)
            == grown[p := Info(grown[p].paramName, map[r.method_ := r.handlers], r.path, [r.method_])]
  {
    hide SplitPath, AddNodes, PatternOf;
    assert [] + r.handlers == r.handlers && [] + [r.method_] == [r.method_];
  }

  lemma FirstRouteTrie(opts: Options, name: string, r: Route)
    requires name != "" && SplitPath(opts, r.path) == [":" + name, "x"]
    ensures Build(opts, [r]) == map[[] := NewInfo(""), [Par] := NewInfo(name),
                                    [Par, Lit("x")] := Info("", map[r.method_ := r.handlers], r.path, [r.method_])]
  {
    FirstNodes(name);
    FirstPattern(name);
    assert [r][..0] == [];
    hide SplitPath, AddNodes, PatternOf, AddRoute;
    var d: Trie := map[[] := NewInfo(""), [Par] := NewInfo(name), [Par, Lit("x")] := NewInfo("")];
    FirstHandlers(opts, EMPTY_TRIE, r, [Par, Lit("x")], d);
  }

  lemma FirstPattern(name: string)
    requires name != ""
    ensures PatternOf([":" + name, "x"]) == Pattern([Par, Lit("x")])
  {
    assert [":" + name, "x"][1..] == ["x"] && ["x"][1..] == [];
    assert PatternOf([]) == Pattern([]) && PatternOf(["x"]) == Pattern([Lit("x")] + []);
    assert [Par] + [Lit("x")] == [Par, Lit("x")];
  }

  lemma FirstNodes(name: string)
    requires name != ""
    ensures AddNodes(EMPTY_TRIE, [], [":" + name, "x"])
            == map[[] := NewInfo(""), [Par] := NewInfo(name), [Par, Lit("x")] := NewInfo("")]
  {
    var s := ":" + name;
    var c := EMPTY_TRIE[[Par] := NewInfo(name)];
    assert SegmentKey(s) == Par && SegmentName(s) == name && Child([], Par) == [Par] && s != ":";
    assert SegmentKey("x") == Lit("x") && SegmentName("x") == "" && Child([Par], Lit("x")) == [Par, Lit("x")];
    assert [s] + ["x"] == [s, "x"] && ["x"] + [] == ["x"];
    hide SegmentKey, SegmentName, Child, AddNodes;
    NewNode(EMPTY_TRIE, [], s, ["x"]);
    NewNode(c, [Par], "x", []);
    NoNodes(c[[Par, Lit("x")] := NewInfo("")], [Par, Lit("x")]);
  }

  lemma NoNodes(c: Trie, p: Path)
    ensures AddNodes(c, p, []) == c
  {
  }

  lemma TwoRoutesUse(opts: Options, name: string, h: Handler, names: set<string>)
    requires PlainName(name) && name in names
    ensures Uses(opts, TwoRoutes(name, h), names)
  {
    TwoPaths(opts, name);
    FewNames(name, names);
    hide SplitPath, PlainName, NamesIn;
  }

  lemma FewNames(name: string, names: set<string>)
    requires name in names
    ensures NamesIn([":" + name, "x"], names) && NamesIn(["*"], names)
  {
    assert (":" + name)[1..] == name;
  }

  lemma TwoTrieNodes(name: string, h: Handler)
    ensures var c := TwoTrie(name, h);
            && Child([], Lit("a")) !in c && Child([], Par) in c && c[Child([], Par)].paramName == name
            && Child([Par], Lit("y")) !in c && Child([Par], Par) !in c && Child([Par], Wild) !in c
            && Child([Par], Lit("x")) in c && Registered(c, [Par, Lit("x")]) && Registered(c, Child([], Wild))
            && Child([], Par) == [Par] && Child([], Wild) == [Wild] && Child([Par], Lit("x")) == [Par, Lit("x")]
  {
    var c := TwoTrie(name, h);
    Singles(Lit("a"));
    Singles(Par);
    Singles(Wild);
    assert Child([Par], Lit("x")) == [Par, Lit("x")];
    hide Child;
    assert Lit("x") != Lit("y") by { assert "x"[0] != "y"[0]; }
    assert "GET" in map["GET" := [h]];
    assert c.Keys == {[], [Par], [Par, Lit("x")], [Wild]};
    forall k | k != Lit("x") ensures Child([Par], k) !in c {
      assert Child([Par], k) == [Par, k] by { Singles(k); }
      assert [Par, k][1] != [Par, Lit("x")][1];
    }
  }

  lemma Singles(k: Key)
    ensures Child([], k) == [k] && Child([Par], k) == [Par, k]
  {
  }

  /** With no static child the param child comes first. */
  lemma ParamFirst(c: Trie, opts: Options, p: Path, segments: seq<string>, params: Params)
    requires segments != [] && Child(p, Lit(segments[0])) !in c && Child(p, Par) in c
    requires '%' !in segments[0] && |segments[0]| <= opts.paramLength
    ensures var q, name, v := Child(p, Par), c[Child(p, Par)].paramName, Given(segments[0]);
            var below := WalkNode(c, opts, q, segments[1..], Write(params, name, v), false);
            var found := Find(c, opts, q, segments[1..], params[name := v], false);
            && WalkNode(c, opts, p, segments, params, false) ==
               (if !below.outcome.Nowhere? then below
                else WalkWild(c, opts, p, segments, Undo(below.params, name, Read(params, name)), false))
            && Find(c, opts, p, segments, params, false) ==
               (if !found.Missing? then found else FindWild(c, opts, p, segments, params, false))
  {
    hide Write, Undo, Read, WalkWild, FindWild, Child;
  }

  lemma NoChild(c: Trie, opts: Options, p: Path, s: string, params: Params)
    requires Child(p, Lit(s)) !in c && Child(p, Par) !in c && Child(p, Wild) !in c
    ensures WalkNode(c, opts, p, [s], params, false) == Walked(Nowhere, params)
    ensures Find(c, opts, p, [s], params, false) == Missing
  {
  }

  lemma StaticEnd(c: Trie, opts: Options, p: Path, s: string, params: Params)
    requires Child(p, Lit(s)) in c && Registered(c, Child(p, Lit(s)))
    ensures WalkNode(c, opts, p, [s], params, false) == Walked(At(Child(p, Lit(s))), params)
    ensures Find(c, opts, p, [s], params, false) == Found(Child(p, Lit(s)), params)
  {
    assert [s][1..] == [];
  }

  /** `/a/y` fails below the param and ends at the wildcard; the inherited value of the name stays behind as a param. */
  lemma InheritedNameStays(opts: Options, name: string, h: Handler)
    requires name in INHERITED && name != PROTO && opts.paramLength >= 1
    ensures var c := Build(opts, TwoRoutes(name, h));
            && WalkNode(c, opts, [], ["a", "y"], map[], false)
               == Walked(At([Wild]), map[name := Builtin, "wildcard" := Given("a/y")])
            && Find(c, opts, [], ["a", "y"], map[], false) == Found([Wild], map["wildcard" := Given("a/y")])
  {
    InheritedIsPlain(name);
    TwoRoutesTrie(opts, name, h);
    TwoTrieNodes(name, h);
    var c, s := TwoTrie(name, h), ["a", "y"];
    hide *;
    assert s[1..] == ["y"] && '%' !in s[0];
    ParamFirst(c, opts, [], s, map[]);
    var bound: Params := map[name := Given("a")];
    NoChild(c, opts, [Par], "y", bound);
    WildTakes(c, opts, name, map[]);
    WildTakes(c, opts, name, map[name := Builtin]);
    Rewritten(name);
  }

  lemma Rewritten(name: string)
    requires name in INHERITED && name != PROTO
    ensures Write(map[], name, Given("a")) == map[name := Given("a")]
    ensures Undo(map[name := Given("a")], name, Read(map[], name)) == map[name := Builtin]
    ensures var o: Params := map[name := Builtin];
            o["wildcard" := Given("a/y")] == map[name := Builtin, "wildcard" := Given("a/y")]
  {
    hide INHERITED;
  }

  lemma WildTakes(c: Trie, opts: Options, name: string, o: Params)
    requires Child([], Wild) == [Wild] && Registered(c, [Wild])
    ensures WalkWild(c, opts, [], ["a", "y"], o, false) == Walked(At([Wild]), o["wildcard" := Given("a/y")])
    ensures FindWild(c, opts, [], ["a", "y"], o, false) == Found([Wild], o["wildcard" := Given("a/y")])
  {
    PlainSegments(opts, ["a", "y"]);
    assert Join(["a", "y"], '/') == "a" + "/" + Join(["y"], '/') == "a/y";
  }

  /** `/a/x` matches the param route, but its param is not there. */
  lemma ProtoIsLost(opts: Options, h: Handler)
    requires opts.paramLength >= 1
    ensures var c := Build(opts, TwoRoutes(PROTO, h));
            && WalkNode(c, opts, [], ["a", "x"], map[], false) == Walked(At([Par, Lit("x")]), map[])
            && Find(c, opts, [], ["a", "x"], map[], false) == Found([Par, Lit("x")], map[PROTO := Given("a")])
  {
    PlainAccessors();
    TwoRoutesTrie(opts, PROTO, h);
    TwoTrieNodes(PROTO, h);
    var c, s := TwoTrie(PROTO, h), ["a", "x"];
    assert Write(map[], PROTO, Given("a")) == map[];
    hide *;
    assert s[1..] == ["x"] && '%' !in s[0];
    ParamFirst(c, opts, [], s, map[]);
    StaticEnd(c, opts, [Par], "x", map[]);
    StaticEnd(c, opts, [Par], "x", map[PROTO := Given("a")]);
  }
}
