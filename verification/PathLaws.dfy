/** Which texts are the same path, and which request a table of routes answers with what. */
module PathLaws {
  import opened Text
  import opened Objects
  import opened TrieSpec
  import opened RouteTable
  import opened RouteLaws
  import opened FastLaws
  import opened ParamObjects
  import opened Results

  // ----- the text of a path ---------------------------------------------------------------

  /** Segments of a path, the last one not empty. */
  ghost predicate PathSegments(segments: seq<string>) {
    && segments != [] && segments[|segments| - 1] != ""
    && forall s | s in segments :: '/' !in s && CleanPath(s)
  }

  /** Nothing, a query or a fragment. */
  predicate QueryOrFragment(tail: string) { tail == "" || tail[0] == '?' || tail[0] == '#' }

  lemma {:induction false} BeforeAppend(s: string, tail: string, c: char)
    requires c !in s
    ensures Text.Before(s + tail, c) == s + Text.Before(tail, c)
  {
    if s == "" {
      assert s + tail == tail;
    } else {
      assert (s + tail)[1..] == s[1..] + tail;
      BeforeAppend(s[1..], tail, c);
    }
  }

  lemma {:induction false} BeforeKeepsFirst(tail: string, c: char)
    ensures Text.Before(tail, c) == "" || (tail != "" && Text.Before(tail, c)[0] == tail[0])
  {
  }

  /** A query or a fragment is cut off. */
  lemma CutTail(path: string, tail: string)
    requires CleanPath(path) && QueryOrFragment(tail)
    ensures Text.Before(Text.Before(path + tail, '?'), '#') == path
  {
    var kept := Text.Before(tail, '?');
    BeforeAppend(path, tail, '?');
    BeforeKeepsFirst(tail, '?');
    BeforeAppend(path, kept, '#');
    assert kept == "" || kept[0] == '#';
    assert Text.Before(kept, '#') == "" && path + "" == path;
  }

  lemma {:induction false} JoinedIsClean(segments: seq<string>)
    requires forall s | s in segments :: CleanPath(s)
    ensures CleanPath(Join(segments, '/'))
  {
    if |segments| > 0 { assert segments[0] in segments; }
    if |segments| > 1 {
      forall s | s in segments[1..] ensures CleanPath(s) { assert s in segments; }
      JoinedIsClean(segments[1..]);
    }
  }

  lemma {:induction false} JoinedEnds(segments: seq<string>)
    requires segments != [] && segments[|segments| - 1] != ""
    ensures var s, last := Join(segments, '/'), segments[|segments| - 1];
            s != "" && s[|s| - 1] == last[|last| - 1]
  {
    if |segments| > 1 { JoinedEnds(segments[1..]); }
  }

  lemma LastChar(segments: seq<string>)
    requires PathSegments(segments)
    ensures var s := Join(segments, '/'); s != "" && s[|s| - 1] != '/' && CleanPath(s)
  {
    JoinedIsClean(segments);
    JoinedEnds(segments);
    assert segments[|segments| - 1] in segments;
  }

  /** What is left of a path decides its segments. */
  lemma SplitCut(opts: Options, path: string, s: string)
    requires s != "" && s[|s| - 1] != '/'
    ensures Text.Before(Text.Before(WithSlash(path), '?'), '#') == "/" + s ==> SplitPath(opts, path) == Split(s, '/')
    ensures Text.Before(Text.Before(WithSlash(path), '?'), '#') == "/" + s + "/" ==>
              SplitPath(opts, path) == Split(if opts.strict then s + "/" else s, '/')
  {
    hide Split, Text.Before, WithSlash;
    assert ("/" + s)[1..] == s && ("/" + s + "/")[1..] == s + "/" && ("/" + s + "/")[..|s| + 1] == "/" + s;
  }

  /** A path without trailing slash gives its segments; one more slash is nothing, or an empty segment in a strict
      router; a query or fragment behind either changes nothing. */
  lemma SplitPathIs(opts: Options, segments: seq<string>, tail: string)
    requires PathSegments(segments) && QueryOrFragment(tail)
    ensures SplitPath(opts, "/" + Join(segments, '/') + tail) == segments
    ensures SplitPath(opts, "/" + Join(segments, '/') + "/" + tail) == if opts.strict then segments + [""] else segments
    ensures segments[0] != "" ==> SplitPath(opts, Join(segments, '/') + tail) == segments
  {
    hide *;
    var s := Join(segments, '/');
    LastChar(segments);
    SplitsBack(segments);
    SlashBehind(s);
    SplitBehindSlash(opts, s, tail);
    if segments[0] != "" { FirstChar(segments); }
  }

  lemma SplitsBack(segments: seq<string>)
    requires PathSegments(segments)
    ensures Split(Join(segments, '/'), '/') == segments
  {
    hide Split, Join, CleanPath;
    SplitJoin(segments, '/');
  }

  lemma SplitBehindSlash(opts: Options, s: string, tail: string)
    requires s != "" && s[|s| - 1] != '/' && CleanPath(s) && QueryOrFragment(tail)
    ensures SplitPath(opts, "/" + s + tail) == Split(s, '/')
    ensures SplitPath(opts, "/" + s + "/" + tail) == Split(if opts.strict then s + "/" else s, '/')
    ensures s[0] != '/' ==> SplitPath(opts, s + tail) == Split(s, '/')
  {
    hide *;
    SlashIsClean(s);
    CutTail("/" + s, tail);
    CutTail("/" + s + "/", tail);
    SlashStays(s, tail);
    SplitCut(opts, "/" + s + tail, s);
    SplitCut(opts, "/" + s + "/" + tail, s);
    SplitCut(opts, s + tail, s);
  }

  lemma SlashStays(s: string, tail: string)
    requires s != ""
    ensures WithSlash("/" + s + tail) == "/" + s + tail && WithSlash("/" + s + "/" + tail) == "/" + s + "/" + tail
    ensures s[0] != '/' ==> WithSlash(s + tail) == "/" + s + tail
  {
    assert "/" + (s + tail) == "/" + s + tail;
  }

  lemma SlashIsClean(s: string)
    requires CleanPath(s)
    ensures CleanPath("/" + s) && CleanPath("/" + s + "/")
  {
  }

  lemma SlashBehind(s: string)
    ensures Split(s + "/", '/') == Split(s, '/') + [""]
  {
    SplitAppend(s, '/', "");
    assert s + "/" + "" == s + "/";
  }

  lemma FirstChar(segments: seq<string>)
    requires PathSegments(segments) && segments[0] != ""
    ensures var s := Join(segments, '/'); s != "" && s[0] != '/'
  {
    assert segments[0] in segments;
  }

  /** The root has no segments. */
  lemma RootPath(opts: Options, tail: string)
    requires QueryOrFragment(tail)
    ensures SplitPath(opts, "/" + tail) == []
  {
    CutTail("/", tail);
  }

  /** A trailing slash makes no difference unless the router is strict, on any table. */
  lemma TrailingSlashIsIgnored(opts: Options, fast: FastMap, c: Trie, m: string, path: string)
    requires !opts.strict && CleanPath(path) && |path| > 1 && path[0] == '/' && path[|path| - 1] != '/'
    ensures CodeMatch(opts, fast, c, m, path + "/") == CodeMatch(opts, fast, c, m, path)
  {
    hide *;
    SameLookup(opts, path);
    SamePath(opts, path);
    SameAnswer(opts, fast, c, m, path, path + "/");
  }

  lemma SameLookup(opts: Options, path: string)
    requires !opts.strict && |path| > 1 && path[0] == '/' && path[|path| - 1] != '/'
    ensures NormalizeLookup(opts, path + "/") == NormalizeLookup(opts, path) == path
  {
    assert (path + "/")[..|path|] == path;
  }

  lemma SamePath(opts: Options, path: string)
    requires !opts.strict && CleanPath(path) && |path| > 1 && path[0] == '/' && path[|path| - 1] != '/'
    ensures SplitPath(opts, path + "/") == SplitPath(opts, path)
  {
    var s := path[1..];
    assert CleanPath(s);
    hide *;
    assert "/" + s + "" == path && "/" + s + "/" + "" == path + "/";
    NoTail();
    SplitBehindSlash(opts, s, "");
  }

  lemma NoTail()
    ensures QueryOrFragment("")
  {
  }

  lemma SameAnswer(opts: Options, fast: FastMap, c: Trie, m: string, path: string, other: string)
    requires NormalizeLookup(opts, other) == NormalizeLookup(opts, path)
    requires SplitPath(opts, other) == SplitPath(opts, path)
    ensures CodeMatch(opts, fast, c, m, other) == CodeMatch(opts, fast, c, m, path)
  {
    hide WalkNode, Answer, ForMethod, SplitPath, NormalizeLookup;
  }

  // ----- one route ------------------------------------------------------------------------

  /** The only route is `/a`: the request for `/a/` is answered by it if and only if the router is not strict. */
  lemma OnlyRouteA(opts: Options, h: Handler)
    ensures var routes := [Route("GET", "/a", [h])];
            var fast, c := BuildFast(opts, routes), Build(opts, routes);
            && CodeMatch(opts, fast, c, "GET", "/a") == Matched([h], map[], "/a")
            && CodeMatch(opts, fast, c, "GET", "/a/") == if opts.strict then NoMatch else Matched([h], map[], "/a")
  {
    var routes := [Route("GET", "/a", [h])];
    var fast, c := BuildFast(opts, routes), Build(opts, routes);
    FastOfOne(opts, h);
    PathsOfA(opts);
    hide Build, BuildFast, SplitPath, WalkMatch;
    TrailingSlashOfA(opts, routes, h);
    if !opts.strict { TrailingSlashIsIgnored(opts, fast, c, "GET", "/a"); }
    assert "/a" + "/" == "/a/";
  }

  lemma FastOfOne(opts: Options, h: Handler)
    ensures BuildFast(opts, [Route("GET", "/a", [h])]) == map["/a" := map["GET" := Fast([h], "/a")]]
  {
    PathsOfA(opts);
    HandlersOfA(opts, h);
    hide SplitPath, FastKey, Build;
    var r := Route("GET", "/a", [h]);
    assert [r][..0] == [];
    BuildHandlers(opts, [r], [Lit("a")], "GET");
    assert !HasMarker("/a");
  }

  lemma TrailingSlashOfA(opts: Options, routes: seq<Route>, h: Handler)
    requires opts.strict ==> routes == [Route("GET", "/a", [h])]
    ensures opts.strict ==>
              NormalizeLookup(opts, "/a/") == "/a/" && WalkMatch(opts, Build(opts, routes), "GET", "/a/") == NoMatch
  {
    hide Build, WalkNode, SplitPath, Answers, Decodable;
    if opts.strict {
      SlashOfA(opts);
      PlainSegmentsOfA(opts);
      CodeFindsBest(opts, routes, ["a", ""], false);
      forall p ensures !Answers(opts, routes, ["a", ""], p) { OnlyAnswersA(opts, h, p); }
    }
  }

  lemma SlashOfA(opts: Options)
    requires opts.strict
    ensures SplitPath(opts, "/a/") == ["a", ""]
  {
    assert ["a"][0] == "a" && Join(["a"], '/') == "a" && "/" + "a" + "/" + "" == "/a/" && ["a"] + [""] == ["a", ""];
    hide SplitPath, Join;
    SplitPathIs(opts, ["a"], "");
  }

  lemma PlainSegmentsOfA(opts: Options)
    ensures Decodable(opts, ["a", ""])
  {
  }

  lemma OnlyAnswersA(opts: Options, h: Handler, p: Path)
    ensures !Answers(opts, [Route("GET", "/a", [h])], ["a", ""], p)
  {
    PathsOfA(opts);
    hide SplitPath;
    assert [Lit("a")][1..] == [] && ["a", ""][1..] == [""];
    assert !Matches(opts, [Lit("a")], ["a", ""]);
    hide Matches;
  }

  // ----- three routes ---------------------------------------------------------------------

  /** A static route, a param and a wildcard. */
  function ThreeRoutes(f: Handler, g: Handler, h: Handler): seq<Route> {
    [Route("GET", "/a", [f]), Route("GET", "/:x", [g]), Route("GET", "/*", [h])]
  }

  lemma PatternsOfThree(opts: Options)
    ensures PatternOf(SplitPath(opts, "/a")) == Pattern([Lit("a")])
    ensures PatternOf(SplitPath(opts, "/:x")) == Pattern([Par]) && PatternOf(SplitPath(opts, "/*")) == Pattern([Wild])
    ensures SplitPath(opts, "/:x") == [":x"]
  {
    hide SplitPath, PatternOf, CleanPath;
    SegmentNames();
    OneSegment(opts, "a");
    OneSegment(opts, ":x");
    OneSegment(opts, "*");
    assert "/" + "a" == "/a" && "/" + ":x" == "/:x" && "/" + "*" == "/*";
    OneKey("a");
    OneKey(":x");
    OneKey("*");
  }

  lemma OneSegment(opts: Options, s: string)
    requires s != "" && '/' !in s && CleanPath(s)
    ensures SplitPath(opts, "/" + s) == [s]
  {
    assert Join([s], '/') == s && "/" + s + "" == "/" + s;
    hide SplitPath, Join;
    SplitPathIs(opts, [s], "");
  }

  lemma OneKey(s: string)
    requires s != ":"
    ensures PatternOf([s]) == Pattern([SegmentKey(s)])
  {
    assert [s][1..] == [] && PatternOf([]) == Pattern([]);
    assert [SegmentKey(s)] + [] == [SegmentKey(s)];
  }

  /** The best pattern is found with its bindings. */
  lemma BestIsFound(opts: Options, routes: seq<Route>, segments: seq<string>, best: Path)
    requires Decodable(opts, segments) && Answers(opts, routes, segments, best)
    requires forall p | Answers(opts, routes, segments, p) && p != best :: Precedes(best, p)
    ensures var c := Build(opts, routes);
            Find(c, opts, [], segments, map[], false) == Found(best, Bindings(c, opts, [], best, segments, map[]))
  {
    hide Find, Build, Bindings, Answers, Decodable;
    SearchFindsBest(opts, routes, segments, false);
    var r := Find(Build(opts, routes), opts, [], segments, map[], false);
    if r.Found? && r.path != best { PrecedesIsStrict(best, r.path); }
  }

  /** Which of the three patterns answer. */
  lemma ThreeAnswer(opts: Options, f: Handler, g: Handler, h: Handler, segments: seq<string>, p: Path)
    requires segments != []
    ensures Answers(opts, ThreeRoutes(f, g, h), segments, p) <==>
            || (p == [Lit("a")] && segments == ["a"])
            || (p == [Par] && |segments| == 1 && KeyMatches(opts, Par, segments[0]))
            || p == [Wild]
  {
    PatternsOfThree(opts);
    var routes := ThreeRoutes(f, g, h);
    hide SplitPath;
    assert IsFor(opts, routes[0], p) <==> p == [Lit("a")];
    assert IsFor(opts, routes[1], p) <==> p == [Par];
    assert IsFor(opts, routes[2], p) <==> p == [Wild];
    OneKeyMatches(opts, Lit("a"), segments);
    OneKeyMatches(opts, Par, segments);
    assert Matches(opts, [Wild], segments);
    hide Matches, IsFor, KeyMatches;
    assert Answers(opts, routes, segments, p) <==>
           (p == [Lit("a")] || p == [Par] || p == [Wild]) && Matches(opts, p, segments);
  }

  lemma OneKeyMatches(opts: Options, k: Key, segments: seq<string>)
    requires k != Wild && segments != []
    ensures Matches(opts, [k], segments) <==> |segments| == 1 && KeyMatches(opts, k, segments[0])
    ensures KeyMatches(opts, Lit("a"), segments[0]) <==> segments[0] == "a"
    ensures |segments| == 1 ==> segments == [segments[0]]
  {
    assert [k][1..] == [];
  }

  /** The handlers that the three nodes have. */
  lemma HandlersOfThree(opts: Options, f: Handler, g: Handler, h: Handler, p: Path, only: Handler)
    requires (p == [Lit("a")] && only == f) || (p == [Par] && only == g) || (p == [Wild] && only == h)
    ensures var c := Build(opts, ThreeRoutes(f, g, h));
            && p in c && ForMethod(c[p].handlers, "GET") == Some([only])
            && ForMethod(c[p].handlers, "HEAD") == Some([only]) && ForMethod(c[p].handlers, "POST") == None
  {
    hide *;
    var routes := ThreeRoutes(f, g, h);
    OneForEach(opts, f, g, h, p, only);
    BuildHandlers(opts, routes, p, "GET");
    BuildHandlers(opts, routes, p, "HEAD");
    BuildHandlers(opts, routes, p, "POST");
    OnlyGet(Build(opts, routes), p, only);
  }

  lemma OnlyGet(c: Trie, p: Path, only: Handler)
    requires HandlersAt(c, p, "GET") == [only] && p in c && "GET" in c[p].handlers
    requires "HEAD" !in c[p].handlers && "POST" !in c[p].handlers
    ensures ForMethod(c[p].handlers, "GET") == Some([only]) == ForMethod(c[p].handlers, "HEAD")
    ensures ForMethod(c[p].handlers, "POST") == None
  {
    assert "POST"[0] != "HEAD"[0];
  }

  lemma OneForEach(opts: Options, f: Handler, g: Handler, h: Handler, p: Path, only: Handler)
    requires (p == [Lit("a")] && only == f) || (p == [Par] && only == g) || (p == [Wild] && only == h)
    ensures var routes := ThreeRoutes(f, g, h);
            && HandlersOf(opts, routes, p, "GET") == [only]
            && (exists i | 0 <= i < |routes| :: IsFor(opts, routes[i], p) && routes[i].method_ == "GET")
            && !(exists i | 0 <= i < |routes| :: IsFor(opts, routes[i], p) && routes[i].method_ == "HEAD")
            && !(exists i | 0 <= i < |routes| :: IsFor(opts, routes[i], p) && routes[i].method_ == "POST")
  {
    var routes := ThreeRoutes(f, g, h);
    PatternsOfThree(opts);
    hide SplitPath, PatternOf;
    var two, one := routes[..2], routes[..1];
    assert two[..1] == one && one[..0] == [];
    assert HandlersOf(opts, one, p, "GET") == [] + if p == [Lit("a")] then [f] else [];
    assert HandlersOf(opts, two, p, "GET") == HandlersOf(opts, one, p, "GET") + if p == [Par] then [g] else [];
    assert HandlersOf(opts, routes, p, "GET") == HandlersOf(opts, two, p, "GET") + if p == [Wild] then [h] else [];
    assert routes[if p == [Lit("a")] then 0 else if p == [Par] then 1 else 2].method_ == "GET";
    assert "GET"[0] != "HEAD"[0] && "GET"[0] != "POST"[0];
  }

  lemma ParamOfThree(opts: Options, f: Handler, g: Handler, h: Handler)
    ensures var c := Build(opts, ThreeRoutes(f, g, h)); SafeNames(c) && NameAt(c, [Par]) == "x"
  {
    hide *;
    var routes := ThreeRoutes(f, g, h);
    ThreeUse(opts, f, g, h);
    ShortIsSafe();
    SafeRoutes(opts, routes, {"x"});
    BuildNamed(opts, routes, {"x"});
    HandlersOfThree(opts, f, g, h, [Par], g);
    OnlyName(Build(opts, routes), "x");
  }

  lemma OnlyName(c: Trie, name: string)
    requires Named(c, {name}) && [Par] in c
    ensures NameAt(c, [Par]) == name
  {
    assert Child([], Par) == [Par];
  }

  lemma ThreeUse(opts: Options, f: Handler, g: Handler, h: Handler)
    ensures Uses(opts, ThreeRoutes(f, g, h), {"x"})
  {
    hide *;
    SegmentNames();
    OneSegment(opts, "a");
    OneSegment(opts, ":x");
    OneSegment(opts, "*");
    var routes := ThreeRoutes(f, g, h);
    ThreePaths(f, g, h);
    forall i | 0 <= i < |routes| ensures NamesIn(SplitPath(opts, routes[i].path), {"x"}) {}
    NamesInRoutes(opts, routes, {"x"});
  }

  lemma ThreePaths(f: Handler, g: Handler, h: Handler)
    ensures var routes := ThreeRoutes(f, g, h);
            |routes| == 3 && routes[0].path == "/" + "a" && routes[1].path == "/" + ":x" && routes[2].path == "/" + "*"
  {
  }

  lemma SegmentNames()
    ensures NamesIn(["a"], {"x"}) && NamesIn([":x"], {"x"}) && NamesIn(["*"], {"x"})
    ensures "a" != "" && '/' !in "a" && CleanPath("a")
    ensures ":x" != "" && '/' !in ":x" && CleanPath(":x")
    ensures "*" != "" && '/' !in "*" && CleanPath("*")
  {
    assert ":x"[1..] == "x";
  }

  lemma NamesInRoutes(opts: Options, routes: seq<Route>, names: set<string>)
    requires forall i | 0 <= i < |routes| :: NamesIn(SplitPath(opts, routes[i].path), names)
    ensures Uses(opts, routes, names)
  {
  }

  lemma ShortIsSafe()
    ensures {"x"} !! INHERITED
  {
    forall name | name in INHERITED ensures |name| > 1 {}
  }

  /** The answer of the code to a request that finds this node with these params. */
  lemma AnswerOfThree(opts: Options, f: Handler, g: Handler, h: Handler, m: string, pathname: string, best: Path,
                      only: Handler, params: Params)
    requires (best == [Lit("a")] && only == f) || (best == [Par] && only == g) || (best == [Wild] && only == h)
    requires Find(Build(opts, ThreeRoutes(f, g, h)), opts, [], SplitPath(opts, pathname), map[], false)
             == Found(best, params)
    ensures var r := CodeMatch(opts, BuildFast(opts, ThreeRoutes(f, g, h)), Build(opts, ThreeRoutes(f, g, h)), m,
                               pathname);
            && (m == "GET" || m == "HEAD" ==> r.Matched? && r.handlers == [only] && r.params == params)
            && (m == "POST" ==> r == NoMatch)
  {
    hide *;
    var routes := ThreeRoutes(f, g, h);
    var c := Build(opts, routes);
    ThreeAreClean(f, g, h);
    BuildWellFormed(opts, routes);
    ParamOfThree(opts, f, g, h);
    HandlersOfThree(opts, f, g, h, best, only);
    FoundIsAnswer(opts, c, m, pathname, best, params);
    CodeMatchTargets(opts, BuildFast(opts, routes), c, m, pathname);
    FastMatchAgrees(opts, routes, m, pathname);
    SameIs(CodeMatch(opts, BuildFast(opts, routes), c, m, pathname), TrieMatch(opts, c, m, pathname));
  }

  lemma ThreeAreClean(f: Handler, g: Handler, h: Handler)
    ensures var routes := ThreeRoutes(f, g, h); forall i | 0 <= i < |routes| :: CleanPath(routes[i].path)
  {
  }

  lemma FoundIsAnswer(opts: Options, c: Trie, m: string, pathname: string, path: Path, params: Params)
    requires Find(c, opts, [], SplitPath(opts, pathname), map[], false) == Found(path, params) && path in c
    ensures var r := TrieMatch(opts, c, m, pathname);
            match ForMethod(c[path].handlers, m)
            case None => r == NoMatch
            case Some(handlers) => r.Matched? && r.handlers == handlers && r.params == params
  {
    hide Find, SplitPath;
  }

  lemma SameIs(a: MatchResult, b: MatchResult)
    requires SameMatch(a, b)
    ensures b == NoMatch ==> a == NoMatch
    ensures b == BadRequest ==> a == BadRequest
    ensures b.Matched? ==> a.Matched? && a.handlers == b.handlers && a.params == b.params
  {
  }

  /**
   Static, then param, then wildcard; a param takes a segment of at most `paramLength` characters, and the wildcard the
   whole rest; HEAD is answered by GET, and another method is not.
   */
  lemma StaticThenParamThenWildcard(opts: Options, f: Handler, g: Handler, h: Handler)
    ensures var routes := ThreeRoutes(f, g, h);
            var fast, c := BuildFast(opts, routes), Build(opts, routes);
            var a, b, rest := CodeMatch(opts, fast, c, "GET", "/a"), CodeMatch(opts, fast, c, "GET", "/b"),
                              CodeMatch(opts, fast, c, "GET", "/b/c");
            && a.Matched? && a.handlers == [f] && a.params == map[]
            && b.Matched? && b.handlers == [if 1 <= opts.paramLength then g else h]
            && b.params == map[if 1 <= opts.paramLength then "x" else "wildcard" := Given("b")]
            && rest.Matched? && rest.handlers == [h] && rest.params == map["wildcard" := Given("b/c")]
            && CodeMatch(opts, fast, c, "HEAD", "/a").Matched? && CodeMatch(opts, fast, c, "HEAD", "/a").handlers == [f]
            && CodeMatch(opts, fast, c, "POST", "/a") == NoMatch
  {
    hide *;
    RequestForA(opts, f, g, h, "GET");
    RequestForA(opts, f, g, h, "HEAD");
    RequestForA(opts, f, g, h, "POST");
    RequestForBC(opts, f, g, h);
    PlainB(opts);
    RequestForSegment(opts, f, g, h, "b");
  }

  lemma RequestForA(opts: Options, f: Handler, g: Handler, h: Handler, m: string)
    ensures var routes := ThreeRoutes(f, g, h);
            var r := CodeMatch(opts, BuildFast(opts, routes), Build(opts, routes), m, "/a");
            && (m == "GET" || m == "HEAD" ==> r.Matched? && r.handlers == [f] && r.params == map[])
            && (m == "POST" ==> r == NoMatch)
  {
    hide *;
    SegmentOfA(opts);
    FoundForA(opts, f, g, h);
    AnswerOfThree(opts, f, g, h, m, "/a", [Lit("a")], f, map[]);
  }

  lemma FoundForA(opts: Options, f: Handler, g: Handler, h: Handler)
    ensures Find(Build(opts, ThreeRoutes(f, g, h)), opts, [], ["a"], map[], false) == Found([Lit("a")], map[])
  {
    var routes := ThreeRoutes(f, g, h);
    BindingsForA(opts, Build(opts, routes));
    hide *;
    forall p ensures Answers(opts, routes, ["a"], p) ==> p == [Lit("a")] || p == [Par] || p == [Wild] {
      ThreeAnswer(opts, f, g, h, ["a"], p);
    }
    ThreeAnswer(opts, f, g, h, ["a"], [Lit("a")]);
    BestIsFound(opts, routes, ["a"], [Lit("a")]);
  }

  lemma BindingsForA(opts: Options, c: Trie)
    ensures Bindings(c, opts, [], [Lit("a")], ["a"], map[]) == map[]
    ensures Decodable(opts, ["a"]) && Precedes([Lit("a")], [Par]) && Precedes([Lit("a")], [Wild])
  {
    assert [Lit("a")][1..] == [];
  }

  lemma SegmentOfA(opts: Options)
    ensures SplitPath(opts, "/a") == ["a"] && SplitPath(opts, "/b") == ["b"] && SplitPath(opts, "/b/c") == ["b", "c"]
  {
    assert "/" + "a" == "/a" && "/" + "b" == "/b" && Join(["b", "c"], '/') == "b" + "/" + "c" by {
      assert ["b", "c"][1..] == ["c"];
    }
    assert "/" + ("b" + "/" + "c") + "" == "/b/c";
    hide SplitPath, Join;
    OneSegment(opts, "a");
    OneSegment(opts, "b");
    SplitPathIs(opts, ["b", "c"], "");
  }

  lemma PlainB(opts: Options)
    ensures "b" != "" && "b" != "a" && '/' !in "b" && CleanPath("b") && |"b"| == 1 && "/" + "b" == "/b"
    ensures Plain(opts, "b") == Some("b")
  {
    assert "b"[0] != "a"[0];
  }

  /** A segment is decoded before it is bound, and only if it has a `%`; a static segment is compared as it stands. */
  function Plain(opts: Options, s: string): Option<string> { if '%' in s then opts.decode(s) else Some(s) }

  /** One segment other than `a`: the param takes it decoded, up to its length, else the wildcard; a segment that cannot
      be decoded is a bad request. */
  lemma RequestForSegment(opts: Options, f: Handler, g: Handler, h: Handler, s: string)
    requires s != "" && s != "a" && '/' !in s && CleanPath(s)
    ensures var routes := ThreeRoutes(f, g, h);
            var r := CodeMatch(opts, BuildFast(opts, routes), Build(opts, routes), "GET", "/" + s);
            match Plain(opts, s)
            case None => r == BadRequest
            case Some(v) =>
              && r.Matched? && r.handlers == [if |v| <= opts.paramLength then g else h]
              && r.params == map[if |v| <= opts.paramLength then "x" else "wildcard" := Given(v)]
  {
    hide *;
    OneSegment(opts, s);
    if Plain(opts, s).None? {
      BadSegment(opts, f, g, h, s);
    } else {
      var v := Plain(opts, s).value;
      var best, only := if |v| <= opts.paramLength then [Par] else [Wild], if |v| <= opts.paramLength then g else h;
      FoundForSegment(opts, f, g, h, s, best);
      AnswerOfThree(opts, f, g, h, "GET", "/" + s, best, only,
                    map[if best == [Par] then "x" else "wildcard" := Given(v)]);
    }
  }

  lemma FoundForSegment(opts: Options, f: Handler, g: Handler, h: Handler, s: string, best: Path)
    requires s != "a" && Plain(opts, s).Some?
    requires best == if |Plain(opts, s).value| <= opts.paramLength then [Par] else [Wild]
    ensures Find(Build(opts, ThreeRoutes(f, g, h)), opts, [], [s], map[], false)
            == Found(best, map[if best == [Par] then "x" else "wildcard" := Given(Plain(opts, s).value)])
  {
    var routes := ThreeRoutes(f, g, h);
    ParamOfThree(opts, f, g, h);
    BindingsForSegment(opts, Build(opts, routes), best, s);
    hide *;
    var short := |Plain(opts, s).value| <= opts.paramLength;
    forall p ensures Answers(opts, routes, [s], p) <==> p == [Wild] || (p == [Par] && short) {
      ThreeAnswer(opts, f, g, h, [s], p);
      ParamTakes(opts, s);
    }
    BestIsFound(opts, routes, [s], best);
  }

  lemma ParamTakes(opts: Options, s: string)
    requires s != "a"
    ensures KeyMatches(opts, Par, s) <==> Plain(opts, s).Some? && |Plain(opts, s).value| <= opts.paramLength
    ensures [s] != ["a"]
  {
    assert [s][0] != ["a"][0];
  }

  lemma BindingsForSegment(opts: Options, c: Trie, best: Path, s: string)
    requires NameAt(c, [Par]) == "x" && (best == [Par] || best == [Wild]) && Plain(opts, s).Some?
    ensures Bindings(c, opts, [], best, [s], map[])
            == map[if best == [Par] then "x" else "wildcard" := Given(Plain(opts, s).value)]
    ensures Decodable(opts, [s]) && Precedes([Par], [Wild])
  {
    assert Child([], Par) == [Par] && [Par][1..] == [];
    assert [s][1..] == [] && DecodedAll(opts, []) == Some([]);
    var v := Plain(opts, s).value;
    assert DecodedAll(opts, [s]) == Some([v] + []);
    assert [v] + [] == [v] && Join([v], '/') == v;
  }

  lemma BadSegment(opts: Options, f: Handler, g: Handler, h: Handler, s: string)
    requires s != "a" && SplitPath(opts, "/" + s) == [s] && Plain(opts, s).None?
    ensures var routes := ThreeRoutes(f, g, h);
            CodeMatch(opts, BuildFast(opts, routes), Build(opts, routes), "GET", "/" + s) == BadRequest
  {
    hide *;
    var routes := ThreeRoutes(f, g, h);
    var c := Build(opts, routes);
    NotRegistered(opts, f, g, h, s);
    HandlersOfThree(opts, f, g, h, [Par], g);
    UndecodedParam(c, opts, s);
    BadIsAnswer(opts, c, "GET", "/" + s);
    ThreeAreClean(f, g, h);
    BuildWellFormed(opts, routes);
    ParamOfThree(opts, f, g, h);
    CodeMatchTargets(opts, BuildFast(opts, routes), c, "GET", "/" + s);
    FastMatchAgrees(opts, routes, "GET", "/" + s);
    SameIs(CodeMatch(opts, BuildFast(opts, routes), c, "GET", "/" + s), TrieMatch(opts, c, "GET", "/" + s));
  }

  lemma NotRegistered(opts: Options, f: Handler, g: Handler, h: Handler, s: string)
    requires s != "a"
    ensures var c := Build(opts, ThreeRoutes(f, g, h));
            !Registered(c, [Lit(s)]) && !Registered(c, [Lit(s), Wild])
  {
    var routes := ThreeRoutes(f, g, h);
    PatternsOfThree(opts);
    hide SplitPath, PatternOf, Build;
    RegisteredPatterns(opts, routes, [Lit(s)]);
    RegisteredPatterns(opts, routes, [Lit(s), Wild]);
    assert [Lit(s)][0] != [Lit("a")][0] && [Lit(s)][0] != [Par][0] && [Lit(s)][0] != [Wild][0];
  }

  lemma UndecodedParam(c: Trie, opts: Options, s: string)
    requires !Registered(c, [Lit(s)]) && !Registered(c, [Lit(s), Wild]) && [Par] in c && Plain(opts, s).None?
    ensures Find(c, opts, [], [s], map[], false) == BadEncoding
  {
    assert Child([], Par) == [Par] && Child([], Lit(s)) == [Lit(s)] && Child([Lit(s)], Wild) == [Lit(s), Wild];
    assert [s][1..] == [];
  }

  lemma BadIsAnswer(opts: Options, c: Trie, m: string, pathname: string)
    requires Find(c, opts, [], SplitPath(opts, pathname), map[], false) == BadEncoding
    ensures TrieMatch(opts, c, m, pathname) == BadRequest
  {
    hide Find, SplitPath;
  }

  /** The wildcard takes nothing too. */
  lemma RequestForRoot(opts: Options, f: Handler, g: Handler, h: Handler)
    ensures var routes := ThreeRoutes(f, g, h);
            var r := CodeMatch(opts, BuildFast(opts, routes), Build(opts, routes), "GET", "/");
            r.Matched? && r.handlers == [h] && r.params == map["wildcard" := Given("")]
  {
    var routes := ThreeRoutes(f, g, h);
    BindingsForRoot(opts, Build(opts, routes));
    assert "/" + "" == "/";
    hide *;
    NoTail();
    RootPath(opts, "");
    forall p ensures Answers(opts, routes, [], p) <==> p == [Wild] { RootAnswer(opts, f, g, h, p); }
    BestIsFound(opts, routes, [], [Wild]);
    AnswerOfThree(opts, f, g, h, "GET", "/", [Wild], h, map["wildcard" := Given("")]);
  }

  lemma RootAnswer(opts: Options, f: Handler, g: Handler, h: Handler, p: Path)
    ensures Answers(opts, ThreeRoutes(f, g, h), [], p) <==> p == [Wild]
  {
    PatternsOfThree(opts);
    var routes := ThreeRoutes(f, g, h);
    hide SplitPath, PatternOf;
    assert IsFor(opts, routes[0], p) <==> p == [Lit("a")];
    assert IsFor(opts, routes[1], p) <==> p == [Par];
    assert IsFor(opts, routes[2], p) <==> p == [Wild];
    assert !Matches(opts, [Lit("a")], []) && !Matches(opts, [Par], []) && Matches(opts, [Wild], []);
    hide Matches, IsFor;
  }

  lemma BindingsForRoot(opts: Options, c: Trie)
    ensures Bindings(c, opts, [], [Wild], [], map[]) == map["wildcard" := Given("")]
    ensures Decodable(opts, [])
  {
    assert DecodedAll(opts, []) == Some([]) && Join([], '/') == "";
  }

  lemma RequestForBC(opts: Options, f: Handler, g: Handler, h: Handler)
    ensures var routes := ThreeRoutes(f, g, h);
            var r := CodeMatch(opts, BuildFast(opts, routes), Build(opts, routes), "GET", "/b/c");
            r.Matched? && r.handlers == [h] && r.params == map["wildcard" := Given("b/c")]
  {
    var routes := ThreeRoutes(f, g, h);
    BindingsForBC(opts, Build(opts, routes));
    hide *;
    SegmentOfA(opts);
    forall p ensures Answers(opts, routes, ["b", "c"], p) <==> p == [Wild] {
      ThreeAnswer(opts, f, g, h, ["b", "c"], p);
    }
    BestIsFound(opts, routes, ["b", "c"], [Wild]);
    AnswerOfThree(opts, f, g, h, "GET", "/b/c", [Wild], h, map["wildcard" := Given("b/c")]);
  }

  lemma BindingsForBC(opts: Options, c: Trie)
    ensures Bindings(c, opts, [], [Wild], ["b", "c"], map[]) == map["wildcard" := Given("b/c")]
    ensures Decodable(opts, ["b", "c"])
  {
    PlainSegments(opts, ["b", "c"]);
    assert ["b", "c"][1..] == ["c"];
    assert Join(["b", "c"], '/') == "b" + "/" + "c" == "b/c";
    assert Remainder(opts, ["b", "c"]) == Some("b/c");
  }
}
