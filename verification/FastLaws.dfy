/** The static fast map answers as the trie does. */
module FastLaws {
  import opened Text
  import opened TrieSpec
  import opened RouteTable
  import opened RouteLaws

  // ----- keys and segments ----------------------------------------------------------------

  /** What a key of the fast map looks like. */
  predicate IsKey(key: string) {
    key != "" && key[0] == '/' && CleanPath(key) && !HasMarker(key)
  }

  /** The segments that a normalized path stands for. */
  function KeySegments(key: string): seq<string>
    requires key != ""
  {
    if key == "/" then [] else Split(key[1..], '/')
  }

  function LitPath(segments: seq<string>): Path
    ensures |LitPath(segments)| == |segments|
  {
    seq(|segments|, i requires 0 <= i < |segments| => Lit(segments[i]))
  }

  lemma KeySegmentsInjective(a: string, b: string)
    requires a != "" && b != "" && a[0] == '/' && b[0] == '/'
    requires KeySegments(a) == KeySegments(b)
    ensures a == b
  {
    JoinSplit(a[1..], '/');
    JoinSplit(b[1..], '/');
    assert a == "/" + a[1..] && b == "/" + b[1..];
  }

  /** A clean path is split as its key is. */
  lemma SplitByKey(opts: Options, path: string)
    requires CleanPath(path)
    ensures var key := FastKey(opts, path);
            && key != "" && key[0] == '/' && CleanPath(key)
            && SplitPath(opts, path) == KeySegments(key)
            && (HasMarker(key) <==> HasMarker(path))
  {
    var p := WithSlash(path);
    var key := FastKey(opts, path);
    assert forall c :: c in p <==> c in path || c == '/';
    assert CleanPath(p);
    if key != p { assert p == key + ['/']; }
    assert forall c :: c != '/' ==> (c in key <==> c in p);
  }

  /** Segments without markers make a static pattern, and only the same segments make it. */
  lemma {:induction false} StaticPattern(segments: seq<string>)
    requires forall s | s in segments :: ':' !in s && '*' !in s
    ensures PatternOf(segments) == Pattern(LitPath(segments))
  {
    if segments != [] {
      assert segments[0] in segments;
      forall s | s in segments[1..] ensures ':' !in s && '*' !in s { assert s in segments; }
      StaticPattern(segments[1..]);
      assert [Lit(segments[0])] + LitPath(segments[1..]) == LitPath(segments);
    } else {
      assert LitPath([]) == [];
    }
  }

  lemma {:induction false} StaticSegments(segments: seq<string>, other: seq<string>)
    requires PatternOf(segments) == Pattern(LitPath(other))
    ensures segments == other
  {
    if segments == [] {
      assert |LitPath(other)| == 0;
    } else {
      assert LitPath(other)[0] == PatternOf(segments).keys[0] == SegmentKey(segments[0]);
      var keys := PatternOf(segments[1..]).keys;
      assert LitPath(other) == [SegmentKey(segments[0])] + keys;
      assert LitPath(other)[1..] == LitPath(other[1..]) == keys;
      StaticSegments(segments[1..], other[1..]);
      assert segments == [segments[0]] + segments[1..] && other == [other[0]] + other[1..];
    }
  }

  lemma KeyPattern(key: string)
    requires IsKey(key)
    ensures PatternOf(KeySegments(key)) == Pattern(LitPath(KeySegments(key)))
  {
    if key != "/" {
      SplitChars(key[1..], '/', ':');
      SplitChars(key[1..], '/', '*');
    }
    StaticPattern(KeySegments(key));
  }

  /** A clean registration is for the static pattern of a key exactly when that is its own key. */
  lemma IsForKey(opts: Options, r: Route, key: string)
    requires CleanPath(r.path) && IsKey(key)
    ensures IsFor(opts, r, LitPath(KeySegments(key))) <==> FastKey(opts, r.path) == key
    ensures FastKey(opts, r.path) == key ==> !HasMarker(r.path)
  {
    SplitByKey(opts, r.path);
    KeyPattern(key);
    if IsFor(opts, r, LitPath(KeySegments(key))) {
      StaticSegments(SplitPath(opts, r.path), KeySegments(key));
      KeySegmentsInjective(FastKey(opts, r.path), key);
    }
  }

  // ----- the invariant --------------------------------------------------------------------

  /** The entries of `inner` are the handlers of the node. */
  ghost predicate SameEntries(inner: map<string, Fast>, handlers: map<string, seq<Handler>>) {
    inner.Keys == handlers.Keys && forall m | m in inner :: inner[m].handlers == handlers[m]
  }

  /** A key is in the fast map exactly when its static pattern is registered, and has that node's handlers. */
  ghost predicate AgreesAt(fast: FastMap, c: Trie, key: string)
    requires key != ""
  {
    var q := LitPath(KeySegments(key));
    && (key in fast <==> Registered(c, q))
    && (key in fast ==> SameEntries(fast[key], c[q].handlers))
  }

  ghost predicate Agrees(fast: FastMap, c: Trie) {
    && (forall key | key in fast :: IsKey(key))
    && (forall key | IsKey(key) :: AgreesAt(fast, c, key))
  }

  lemma NodeAfterRoute(opts: Options, c: Trie, r: Route, q: Path)
    requires [] in c
    ensures var d := AddRoute(opts, c, r);
            if IsFor(opts, r, q) then
              q in d && d[q].handlers == (if q in c then c[q].handlers
                                          else map[])[r.method_ := HandlersAt(d, q, r.method_)]
            else
              && (Registered(d, q) <==> Registered(c, q))
              && (Registered(c, q) ==> d[q].handlers == c[q].handlers)
  {
    var segments := SplitPath(opts, r.path);
    AddNodesKeeps(c, [], segments);
    if PatternOf(segments).Pattern? {
      AddNodesReaches(c, [], segments);
      assert [] + PatternOf(segments).keys == PatternOf(segments).keys;
    }
  }

  lemma AddFastAgreesAt(opts: Options, fast: FastMap, c: Trie, r: Route, key: string)
    requires [] in c && CleanPath(r.path) && Agrees(fast, c) && IsKey(key)
    ensures AgreesAt(AddFast(opts, fast, AddRoute(opts, c, r), r), AddRoute(opts, c, r), key)
  {
    hide AddRoute, FastKey, KeySegments, LitPath, CleanPath, SplitPath, PatternOf;
    var d := AddRoute(opts, c, r);
    var q := LitPath(KeySegments(key));
    IsForKey(opts, r, key);
    NodeAfterRoute(opts, c, r, q);
    assert AgreesAt(fast, c, key);
    var after := AddFast(opts, fast, d, r);
    if FastKey(opts, r.path) == key {
      assert r.method_ in d[q].handlers;
      assert after[key] == (if key in fast then fast[key] else map[])[r.method_ := Fast(HandlersAt(d, q, r.method_),
                                                                                        r.path)];
    } else {
      assert key in after <==> key in fast;
    }
  }

  lemma {:induction false} BuildAgrees(opts: Options, routes: seq<Route>)
    requires forall i | 0 <= i < |routes| :: CleanPath(routes[i].path)
    ensures Agrees(BuildFast(opts, routes), Build(opts, routes))
  {
    if routes == [] {
      forall key | IsKey(key) ensures AgreesAt(map[], EMPTY_TRIE, key) {}
    } else {
      var init := routes[..|routes| - 1];
      var r := routes[|routes| - 1];
      BuildAgrees(opts, init);
      var fast := AddFast(opts, BuildFast(opts, init), Build(opts, routes), r);
      SplitByKey(opts, r.path);
      forall key | key in fast ensures IsKey(key) {}
      forall key | IsKey(key) ensures AgreesAt(fast, Build(opts, routes), key) {
        AddFastAgreesAt(opts, BuildFast(opts, init), Build(opts, init), r, key);
      }
    }
  }

  // ----- the theorem ----------------------------------------------------------------------

  /** Same handlers and params; the reported pattern may differ in a trailing slash. */
  predicate SameMatch(a: MatchResult, b: MatchResult) {
    match (a, b)
    case (Matched(h, p, _), Matched(i, q, _)) => h == i && p == q
    case _ => a == b
  }

  /** A registered static pattern is found by its own segments, without bindings. */
  lemma {:induction false} StaticIsFound(c: Trie, opts: Options, p: Path, segments: seq<string>, params: Params,
                                         lenient: bool)
    requires WellFormed(c) && Registered(c, p + LitPath(segments))
    ensures Find(c, opts, p, segments, params, lenient) == Found(p + LitPath(segments), params)
    decreases |segments|
  {
    PrefixIsNode(c, p, LitPath(segments));
    if segments == [] {
      assert p + LitPath([]) == p;
    } else {
      assert LitPath(segments)[0] == Lit(segments[0]);
      var q := Child(p, Lit(segments[0]));
      assert q + LitPath(segments[1..]) == p + LitPath(segments);
      StaticIsFound(c, opts, q, segments[1..], params, lenient);
    }
  }

  lemma LookupKey(opts: Options, pathname: string)
    requires IsKey(NormalizeLookup(opts, pathname))
    ensures CleanPath(pathname) && FastKey(opts, pathname) == NormalizeLookup(opts, pathname)
  {
    var key := NormalizeLookup(opts, pathname);
    if key != pathname { assert pathname == key + ['/']; }
    assert pathname[0] == key[0];
  }

  /** After any sequence of registrations of paths without query or fragment, matching through the fast map gives
      what the trie gives, for every method and every path. */
  lemma FastMatchAgrees(opts: Options, routes: seq<Route>, m: string, pathname: string)
    requires forall i | 0 <= i < |routes| :: CleanPath(routes[i].path)
    ensures SameMatch(FastMatch(opts, BuildFast(opts, routes), Build(opts, routes), m, pathname),
                      TrieMatch(opts, Build(opts, routes), m, pathname))
  {
    hide Find, Build, BuildFast, SplitPath, NormalizeLookup;
    var c := Build(opts, routes);
    var fast := BuildFast(opts, routes);
    var key := NormalizeLookup(opts, pathname);
    BuildAgrees(opts, routes);
    BuildWellFormed(opts, routes);
    if key in fast {
      LookupKey(opts, pathname);
      SplitByKey(opts, pathname);
      var segments := KeySegments(key);
      var q := LitPath(segments);
      assert AgreesAt(fast, c, key);
      assert [] + q == q;
      StaticIsFound(c, opts, [], segments, map[], false);
    }
  }

  /** The registration writes the entry of the fast map for this key and method. */
  predicate Writes(opts: Options, r: Route, key: string, m: string) {
    && PatternOf(SplitPath(opts, r.path)).Pattern? && !HasMarker(r.path)
    && FastKey(opts, r.path) == key && r.method_ == m
  }

  /** The number of registrations up to the last one that writes the entry. */
  function WrittenBy(opts: Options, routes: seq<Route>, key: string, m: string): (n: nat)
    ensures n <= |routes|
  {
    if routes == [] then 0
    else if Writes(opts, routes[|routes| - 1], key, m) then |routes|
    else WrittenBy(opts, routes[..|routes| - 1], key, m)
  }

  /** An entry holds what was registered for its pattern up to the registration that wrote it. */
  lemma {:induction false} EntryIs(opts: Options, routes: seq<Route>, key: string, m: string)
    requires IsKey(key) && key in BuildFast(opts, routes) && m in BuildFast(opts, routes)[key]
    ensures var n, p := WrittenBy(opts, routes, key, m), LitPath(KeySegments(key));
            && BuildFast(opts, routes)[key][m].handlers == HandlersOf(opts, routes[..n], p, m)
            && exists i | 0 <= i < |routes| :: IsFor(opts, routes[i], p) && routes[i].method_ == m
  {
    hide SplitPath, FastKey, Build, HandlersOf, PatternOf, KeySegments;
    var init, r := routes[..|routes| - 1], routes[|routes| - 1];
    var p := LitPath(KeySegments(key));
    hide LitPath;
    if Writes(opts, r, key, m) {
      WriterIsFor(opts, r, key);
      BuildHandlers(opts, routes, p, m);
      assert routes[..|routes|] == routes;
    } else {
      NotWritten(opts, BuildFast(opts, init), Build(opts, routes), r, key, m);
      EntryIs(opts, init, key, m);
      var n := WrittenBy(opts, init, key, m);
      assert init[..n] == routes[..n];
      var i :| 0 <= i < |init| && IsFor(opts, init[i], p) && init[i].method_ == m;
      assert routes[i] == init[i];
    }
  }

  lemma NotWritten(opts: Options, fast: FastMap, c: Trie, r: Route, key: string, m: string)
    requires !Writes(opts, r, key, m)
    ensures var after := AddFast(opts, fast, c, r);
            key in after && m in after[key] ==> key in fast && m in fast[key] && after[key][m] == fast[key][m]
  {
    hide SplitPath, FastKey, PatternOf;
  }

  lemma WriterIsFor(opts: Options, r: Route, key: string)
    requires IsKey(key) && FastKey(opts, r.path) == key
    ensures IsFor(opts, r, LitPath(KeySegments(key)))
  {
    var p := WithSlash(r.path);
    if key != p { assert p == key + ['/']; }
    assert forall c :: c in r.path ==> c in p;
    assert CleanPath(r.path);
    IsForKey(opts, r, key);
  }

  /** The node has handlers of its own for the method. */
  ghost predicate HasOwn(c: Trie, p: Path, m: string) { p in c && m in c[p].handlers }

  /**
   A request whose key has an entry for its method, or for HEAD that of GET, is answered as by the trie exactly when no
   registration after the one that wrote the entry has handlers for its pattern and that method; such a registration
   must be under another key. When GET's entry answers a HEAD that the node has handlers for, these would have to be
   those of the entry.
   */
  lemma FastIsFreshExactly(opts: Options, routes: seq<Route>, m: string, pathname: string)
    requires var key := NormalizeLookup(opts, pathname);
             IsKey(key) && key in BuildFast(opts, routes) && ForMethod(BuildFast(opts, routes)[key], m).Some?
    ensures var key := NormalizeLookup(opts, pathname);
            var own := m in BuildFast(opts, routes)[key];
            var e := if own then m else "GET";
            var n, p := WrittenBy(opts, routes, key, e), LitPath(KeySegments(key));
            SameMatch(FastMatch(opts, BuildFast(opts, routes), Build(opts, routes), m, pathname),
                      TrieMatch(opts, Build(opts, routes), m, pathname))
            <==> if !own && HasOwn(Build(opts, routes), p, m)
                 then HandlersOf(opts, routes, p, m) == HandlersOf(opts, routes[..n], p, e)
                 else HandlersOf(opts, routes[n..], p, e) == []
  {
    hide Find, Build, BuildFast, SplitPath, NormalizeLookup, HandlersOf, KeySegments, LitPath, IsFor, IsKey;
    var c, key := Build(opts, routes), NormalizeLookup(opts, pathname);
    assert key != "" by { KeyIsNotEmpty(key); }
    var e := if m in BuildFast(opts, routes)[key] then m else "GET";
    var n, p := WrittenBy(opts, routes, key, e), LitPath(KeySegments(key));
    EntryIs(opts, routes, key, e);
    assert routes == routes[..n] + routes[n..];
    HandlersOfMore(opts, routes[..n], routes[n..], p, e);
    AppendedNothing(HandlersOf(opts, routes[..n], p, e), HandlersOf(opts, routes[n..], p, e));
    BuildHandlers(opts, routes, p, e);
    BuildHandlers(opts, routes, p, m);
    KeyIsFound(opts, routes, m, pathname, e);
    hide TrieMatch;
  }

  /** The trie answers a key by the node of its pattern. */
  lemma KeyIsFound(opts: Options, routes: seq<Route>, m: string, pathname: string, e: string)
    requires IsKey(NormalizeLookup(opts, pathname))
    requires HasOwn(Build(opts, routes), LitPath(KeySegments(NormalizeLookup(opts, pathname))), e)
    ensures TrieMatch(opts, Build(opts, routes), m, pathname)
            == Answer(Build(opts, routes), LitPath(KeySegments(NormalizeLookup(opts, pathname))), map[], m)
  {
    hide Find, Build, SplitPath, NormalizeLookup, KeySegments, LitPath, Answer;
    var segments := KeySegments(NormalizeLookup(opts, pathname));
    BuildWellFormed(opts, routes);
    KeyIsSplit(opts, pathname);
    assert [] + LitPath(segments) == LitPath(segments);
    StaticIsFound(Build(opts, routes), opts, [], segments, map[], false);
  }

  lemma KeyIsNotEmpty(key: string)
    requires IsKey(key)
    ensures key != ""
  {
  }

  lemma KeyIsSplit(opts: Options, pathname: string)
    requires IsKey(NormalizeLookup(opts, pathname))
    ensures SplitPath(opts, pathname) == KeySegments(NormalizeLookup(opts, pathname))
  {
    LookupKey(opts, pathname);
    SplitByKey(opts, pathname);
  }

  /** With a query in a pattern the fast map goes stale: a second registration of `/a` under `/a?x` is missed. */
  lemma QueryMakesFastMapStale(opts: Options, h: Handler)
    ensures var routes := [Route("GET", "/a", [h]), Route("GET", "/a?x", [h])];
            !SameMatch(FastMatch(opts, BuildFast(opts, routes), Build(opts, routes), "GET", "/a"),
                       TrieMatch(opts, Build(opts, routes), "GET", "/a"))
  {
    PathsOfA(opts);
    FastOfA(opts, h);
    TrieOfA(opts, h);
    hide Build, BuildFast, Find, SplitPath, NormalizeLookup;
  }

  lemma TrieOfA(opts: Options, h: Handler)
    ensures var routes := [Route("GET", "/a", [h]), Route("GET", "/a?x", [h])];
            var r := TrieMatch(opts, Build(opts, routes), "GET", "/a");
            r.Matched? && r.handlers == [h, h]
  {
    hide Build, Find, SplitPath;
    var first := Route("GET", "/a", [h]);
    var second := Route("GET", "/a?x", [h]);
    var routes := [first, second];
    var p := [Lit("a")];
    PathsOfA(opts);
    HandlersOfA(opts, h);
    assert IsFor(opts, routes[0], p);
    BuildHandlers(opts, routes, p, "GET");
    var c := Build(opts, routes);
    BuildWellFormed(opts, routes);
    assert LitPath(["a"]) == p && [] + p == p;
    StaticIsFound(c, opts, [], ["a"], map[], false);
  }

  lemma PathsOfA(opts: Options)
    ensures SplitPath(opts, "/a") == ["a"] && SplitPath(opts, "/a?x") == ["a"]
    ensures PatternOf(["a"]) == Pattern([Lit("a")])
    ensures FastKey(opts, "/a") == "/a" && FastKey(opts, "/a?x") == "/a?x"
    ensures NormalizeLookup(opts, "/a") == "/a"
  {
    assert Text.Before("/a", '?') == "/a" && Text.Before("/a", '#') == "/a";
    assert Text.Before("?x", '?') == "";
    assert "a?x"[1..] == "?x" && "/a?x"[1..] == "a?x";
    assert Text.Before("a?x", '?') == ['a'] + Text.Before("?x", '?') == "a";
    assert Text.Before("/a?x", '?') == ['/'] + Text.Before("a?x", '?') == "/a";
    assert "/a"[1..] == "a" && "a"[1..] == "";
    assert Split("", '/') == [""];
    assert Split("a", '/') == ["a"];
    assert PatternOf([]) == Pattern([]);
    assert ["a"][1..] == [];
  }

  lemma HandlersOfA(opts: Options, h: Handler)
    ensures var first := Route("GET", "/a", [h]);
            var second := Route("GET", "/a?x", [h]);
            && HandlersOf(opts, [first], [Lit("a")], "GET") == [h]
            && HandlersOf(opts, [first, second], [Lit("a")], "GET") == [h, h]
  {
    PathsOfA(opts);
    hide SplitPath;
    var first := Route("GET", "/a", [h]);
    var second := Route("GET", "/a?x", [h]);
    assert [first][..0] == [];
    assert HandlersOf(opts, [first], [Lit("a")], "GET") == [] + [h];
    assert [first, second][..1] == [first];
  }

  lemma FastOfA(opts: Options, h: Handler)
    ensures var routes := [Route("GET", "/a", [h]), Route("GET", "/a?x", [h])];
            var fast := BuildFast(opts, routes);
            "/a" in fast && "GET" in fast["/a"] && fast["/a"]["GET"].handlers == [h]
  {
    PathsOfA(opts);
    HandlersOfA(opts, h);
    hide SplitPath, FastKey, Build;
    var first := Route("GET", "/a", [h]);
    var second := Route("GET", "/a?x", [h]);
    var p := [Lit("a")];
    assert [first, second][..1] == [first] && [first][..0] == [];
    BuildHandlers(opts, [first], p, "GET");
    assert "/a" != "/a?x" by { assert |"/a"| != |"/a?x"|; }
    assert BuildFast(opts, [first]) == map["/a" := map["GET" := Fast([h], "/a")]];
  }
}
