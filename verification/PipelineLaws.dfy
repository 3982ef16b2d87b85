/** When a cached pipeline is the wanted one, over every run of registrations and requests. */
module PipelineLaws {
  import opened Results
  import opened Text
  import opened TrieSpec
  import opened RouteTable
  import opened RouteLaws
  import opened FastLaws
  import opened ParamObjects
  import opened Lists
  import opened Pipelines

  // ----- the reported pattern tells the node ----------------------------------------------

  /** A registration for `p` under this path. */
  ghost predicate Names(opts: Options, routes: seq<Route>, pattern: string, p: Path) {
    exists i | 0 <= i < |routes| :: IsFor(opts, routes[i], p) && routes[i].path == pattern
  }

  lemma {:induction false} NodePattern(opts: Options, routes: seq<Route>, p: Path)
    requires Registered(Build(opts, routes), p)
    ensures Names(opts, routes, Build(opts, routes)[p].pattern, p)
  {
    if routes != [] {
      hide SplitPath, AddRoute, IsFor;
      var init, r := routes[..|routes| - 1], routes[|routes| - 1];
      var c := Build(opts, init);
      PatternAfterRoute(opts, c, r, p);
      if !IsFor(opts, r, p) {
        NodePattern(opts, init, p);
        var i :| 0 <= i < |init| && IsFor(opts, init[i], p) && init[i].path == c[p].pattern;
        assert routes[i] == init[i];
      }
    }
  }

  lemma PatternAfterRoute(opts: Options, c: Trie, r: Route, p: Path)
    requires [] in c && Registered(AddRoute(opts, c, r), p)
    ensures if IsFor(opts, r, p) then AddRoute(opts, c, r)[p].pattern == r.path
            else Registered(c, p) && AddRoute(opts, c, r)[p].pattern == c[p].pattern
  {
    hide SplitPath;
    var segments := SplitPath(opts, r.path);
    AddNodesKeeps(c, [], segments);
    if PatternOf(segments).Pattern? {
      AddNodesReaches(c, [], segments);
      assert [] + PatternOf(segments).keys == PatternOf(segments).keys;
    }
  }

  lemma {:induction false} FastPattern(opts: Options, routes: seq<Route>, key: string, m: string)
    requires forall i | 0 <= i < |routes| :: CleanPath(routes[i].path)
    requires IsKey(key) && key in BuildFast(opts, routes) && m in BuildFast(opts, routes)[key]
    ensures Names(opts, routes, BuildFast(opts, routes)[key][m].pattern, LitPath(KeySegments(key)))
  {
    hide FastKey, SplitPath, Build;
    var init, r := routes[..|routes| - 1], routes[|routes| - 1];
    var before: FastMap, after: FastMap := BuildFast(opts, init), BuildFast(opts, routes);
    IsForKey(opts, r, key);
    if FastKey(opts, r.path) == key && r.method_ == m {
      assert routes[|routes| - 1].path == after[key][m].pattern;
    } else {
      assert key in before && m in before[key] && before[key][m] == after[key][m];
      FastPattern(opts, init, key, m);
      var i :| 0 <= i < |init| && IsFor(opts, init[i], LitPath(KeySegments(key)))
               && init[i].path == before[key][m].pattern;
      assert routes[i] == init[i];
    }
  }

  /** A match reports a registered path whose node holds the handlers. */
  lemma MatchNamesNode(opts: Options, routes: seq<Route>, m: string, pathname: string) returns (p: Path)
    requires forall i | 0 <= i < |routes| :: CleanPath(routes[i].path)
    requires FastMatch(opts, BuildFast(opts, routes), Build(opts, routes), m, pathname).Matched?
    ensures var r := FastMatch(opts, BuildFast(opts, routes), Build(opts, routes), m, pathname);
            && Names(opts, routes, r.routePath, p)
            && p in Build(opts, routes) && ForMethod(Build(opts, routes)[p].handlers, m) == Some(r.handlers)
  {
    hide Find, Build, BuildFast, SplitPath, NormalizeLookup, Names;
    var c, fast := Build(opts, routes), BuildFast(opts, routes);
    var key := NormalizeLookup(opts, pathname);
    BuildAgrees(opts, routes);
    if key in fast && ForMethod(fast[key], m).Some? {
      assert AgreesAt(fast, c, key);
      p := LitPath(KeySegments(key));
      FastPattern(opts, routes, key, if m in fast[key] then m else "GET");
    } else {
      p := Find(c, opts, [], SplitPath(opts, pathname), map[], false).path;
      NodePattern(opts, routes, p);
    }
  }

  // ----- targets --------------------------------------------------------------------------

  /** A method name as it can stand in a request. */
  predicate IsToken(m: string) { m != "" && ':' !in m && '/' !in m && ',' !in m }

  /** A registration by its full path, without query or fragment. */
  predicate CleanRoute(r: Route) { CleanPath(r.path) && r.path != "" && r.path[0] == '/' && IsToken(r.method_) }

  predicate CleanRoutes(routes: seq<Route>) { forall i | 0 <= i < |routes| :: CleanRoute(routes[i]) }

  /** What some request is routed to. */
  ghost predicate IsTarget(opts: Options, routes: seq<Route>, t: Target) {
    exists m, pathname :: IsToken(m) && TargetOf(opts, routes, m, pathname) == Some(t)
  }

  /** A match has handlers of the node that its reported path names. */
  lemma HitFacts(opts: Options, routes: seq<Route>, t: Target) returns (p: Path)
    requires CleanRoutes(routes) && t.Hit? && IsTarget(opts, routes, t)
    ensures IsToken(t.method_) && t.routePath != "" && t.routePath[0] == '/'
    ensures PatternOf(SplitPath(opts, t.routePath)) == Pattern(p)
    ensures p in Build(opts, routes) && ForMethod(Build(opts, routes)[p].handlers, t.method_) == Some(t.handlers)
  {
    hide FastMatch, CodeMatch, Build, BuildFast, SplitPath, AllowedMethods, SafeNames, WellFormed;
    var m, pathname :| IsToken(m) && TargetOf(opts, routes, m, pathname) == Some(t);
    BuildWellFormed(opts, routes);
    CodeMatchTargets(opts, BuildFast(opts, routes), Build(opts, routes), m, pathname);
    p := MatchNamesNode(opts, routes, m, pathname);
  }

  lemma {:induction false} NodeMethods(opts: Options, routes: seq<Route>, p: Path)
    requires CleanRoutes(routes) && p in Build(opts, routes)
    ensures forall m | m in Build(opts, routes)[p].methods :: IsToken(m)
  {
    hide Build, IsToken, IsFor;
    BuildListsMethods(opts, routes);
    assert ListsMethods(Build(opts, routes)[p]);
    forall m | m in Build(opts, routes)[p].methods ensures IsToken(m) {
      BuildHandlers(opts, routes, p, m);
      var i :| 0 <= i < |routes| && IsFor(opts, routes[i], p) && routes[i].method_ == m;
      assert CleanRoute(routes[i]);
    }
  }

  lemma WrongFacts(opts: Options, routes: seq<Route>, t: Target)
    requires CleanRoutes(routes) && t.Wrong? && IsTarget(opts, routes, t)
    ensures t.allowed != [] && forall m | m in t.allowed :: IsToken(m)
  {
    hide CodeMatch, Build, BuildFast, IsToken, CleanRoutes, Find, SplitPath;
    var m, pathname :| IsToken(m) && TargetOf(opts, routes, m, pathname) == Some(t);
    var r := Find(Build(opts, routes), opts, [], SplitPath(opts, pathname), map[], true);
    assert r.Found? && r.path in Build(opts, routes);
    NodeMethods(opts, routes, r.path);
  }

  // ----- keys -----------------------------------------------------------------------------

  lemma ColonSplits(a: string, b: string, x: string, y: string)
    requires ':' !in a && ':' !in b && a + ":" + x == b + ":" + y
    ensures a == b && x == y
  {
    var s := a + ":" + x;
    assert s[|a|] == ':' && s[|b|] == ':';
    assert forall i | 0 <= i < |a| :: s[i] == a[i];
    assert forall i | 0 <= i < |b| :: s[i] == b[i];
    assert |a| == |b|;
    assert s[..|a|] == a && s[..|a|] == b;
    assert s[|a| + 1..] == x && s[|a| + 1..] == y;
  }

  lemma JoinFirst(parts: seq<string>, sep: char)
    requires parts != [] && parts[0] != ""
    ensures Join(parts, sep) != "" && Join(parts, sep)[0] == parts[0][0]
  {
  }

  lemma WrongKey(allowed: seq<string>)
    requires allowed != [] && forall m | m in allowed :: IsToken(m)
    ensures CacheKey(Wrong(allowed)) == "405" + ":" + Join(allowed, ',')
    ensures Join(allowed, ',') != "" && Join(allowed, ',')[0] != '/' && Split(Join(allowed, ','), ',') == allowed
  {
    hide Split;
    assert allowed[0] in allowed;
    assert IsToken(allowed[0]);
    SplitJoin(allowed, ',');
    JoinFirst(allowed, ',');
    hide Join, IsToken;
    assert "405:" + Join(allowed, ',') == "405" + ":" + Join(allowed, ',');
  }

  lemma NotTheMissKey(t: Target)
    requires !t.Miss?
    ensures CacheKey(t) != "404"
  {
    match t {
      case Hit(m, _, _) => assert CacheKey(t)[|m|] == ':';
      case Wrong(_) => assert CacheKey(t)[2] == '5';
    }
  }

  /** What the same key says of a target under some registrations and of one under more of them. */
  lemma SameKey(opts: Options, before: seq<Route>, after: seq<Route>, a: Target, b: Target)
    requires CleanRoutes(before) && CleanRoutes(after)
    requires IsTarget(opts, before, a) && IsTarget(opts, after, b) && CacheKey(a) == CacheKey(b)
    ensures a.Hit? ==> b.Hit? && a.method_ == b.method_ && a.routePath == b.routePath
    ensures a.Wrong? ==> a == b
    ensures a.Miss? ==> b.Miss?
  {
    hide Join, Split, IsTarget, CleanRoutes;
    if !a.Miss? { NotTheMissKey(a); }
    if !b.Miss? { NotTheMissKey(b); }
    match (a, b) {
      case (Hit(m, x, h), Hit(n, y, i)) =>
        var p := HitFacts(opts, before, a);
        var q := HitFacts(opts, after, b);
        ColonSplits(m, n, x, y);
      case (Wrong(x), Wrong(y)) =>
        WrongFacts(opts, before, a);
        WrongFacts(opts, after, b);
        WrongKey(x);
        WrongKey(y);
        ColonSplits("405", "405", Join(x, ','), Join(y, ','));
      case (Hit(m, x, _), Wrong(y)) =>
        var p := HitFacts(opts, before, a);
        WrongFacts(opts, after, b);
        WrongKey(y);
        ColonSplits(m, "405", x, Join(y, ','));
      case (Wrong(x), Hit(m, y, _)) =>
        var p := HitFacts(opts, after, b);
        WrongFacts(opts, before, a);
        WrongKey(x);
        ColonSplits("405", m, Join(x, ','), y);
      case _ =>
    }
  }

  /** For every route table of clean paths the targets are told apart by their keys: equal keys mean equal targets. */
  lemma RouteTableIsConsistent(opts: Options, routes: seq<Route>, a: Target, b: Target)
    requires CleanRoutes(routes) && IsTarget(opts, routes, a) && IsTarget(opts, routes, b)
    ensures CacheKey(a) == CacheKey(b) <==> a == b
  {
    hide IsTarget, CleanRoutes, CacheKey;
    if CacheKey(a) == CacheKey(b) {
      SameKey(opts, routes, routes, a, b);
      if a.Hit? {
        var p := HitFacts(opts, routes, a);
        var q := HitFacts(opts, routes, b);
      }
    }
  }

  // ----- later registrations --------------------------------------------------------------

  /** The method whose handlers answer `m` at `p`: GET stands in for a HEAD that is not registered. */
  ghost function Answering(opts: Options, routes: seq<Route>, p: Path, m: string): string {
    if p in Build(opts, routes) && m in Build(opts, routes)[p].handlers then m else "GET"
  }

  lemma AnswerOf(opts: Options, routes: seq<Route>, p: Path, m: string)
    requires p in Build(opts, routes) && ForMethod(Build(opts, routes)[p].handlers, m).Some?
    ensures ForMethod(Build(opts, routes)[p].handlers, m).value == HandlersOf(opts, routes, p,
                                                                              Answering(opts, routes, p, m))
    ensures m !in Build(opts, routes)[p].handlers ==> HandlersOf(opts, routes, p, m) == []
  {
    hide Build, HandlersOf;
    BuildHandlers(opts, routes, p, m);
    BuildHandlers(opts, routes, p, "GET");
  }

  /** The node that a registered path names. */
  function NodeOf(opts: Options, path: string): Path {
    match PatternOf(SplitPath(opts, path)) case Pattern(keys) => keys case _ => []
  }

  /** The later registrations leave the handlers that answer `m` at `p` as they are. */
  ghost predicate SameAnswer(opts: Options, before: seq<Route>, late: seq<Route>, p: Path, m: string) {
    var e, f := Answering(opts, before, p, m), Answering(opts, before + late, p, m);
    HandlersOf(opts, late, p, f) == if e == f then [] else HandlersOf(opts, before, p, e)
  }

  /** What the key of `t` stands for is not changed by later registrations. */
  ghost predicate Unchanged(opts: Options, before: seq<Route>, late: seq<Route>, t: Target, old_: Handler,
                            new_: Handler) {
    match t
    case Miss => old_ == new_
    case Wrong(_) => true
    case Hit(m, path, _) => SameAnswer(opts, before, late, NodeOf(opts, path), m)
  }

  /**
   The same key before and after the registrations `late` and a change of the not-found handler: what it stands for is
   the same exactly when no later registration has handlers for its node and method. A list of allowed methods is its
   own key. When HEAD was answered by GET before, its own handlers would have to be those of GET.
   */
  lemma UnchangedExactly(opts: Options, before: seq<Route>, late: seq<Route>, a: Target, b: Target, old_: Handler,
                         new_: Handler)
    requires CleanRoutes(before + late) && IsTarget(opts, before, a) && IsTarget(opts, before + late, b)
    requires CacheKey(a) == CacheKey(b)
    ensures Final(a, old_) == Final(b, new_) <==>
            Unchanged(opts, before, late, b, old_, new_)
  {
    hide IsTarget, CacheKey, Build, SplitPath, SameAnswer;
    CleanParts(before, late);
    hide CleanRoutes;
    SameKey(opts, before, before + late, a, b);
    if b.Hit? {
      var p := HitFacts(opts, before, a);
      var q := HitFacts(opts, before + late, b);
      RunsAreDistinct(a.handlers, b.handlers);
      LaterAnswer(opts, before, late, p, b.method_);
    }
  }

  lemma CleanParts(before: seq<Route>, late: seq<Route>)
    requires CleanRoutes(before + late)
    ensures CleanRoutes(before)
  {
    forall i | 0 <= i < |before| ensures CleanRoute(before[i]) { assert (before + late)[i] == before[i]; }
  }

  lemma RunsAreDistinct(x: seq<Handler>, y: seq<Handler>)
    ensures Runs(x) == Runs(y) <==> x == y
  {
    if Runs(x) == Runs(y) {
      forall i | 0 <= i < |x| ensures x[i] == y[i] { assert Runs(x)[i] == Runs(y)[i]; }
    }
  }

  lemma LaterAnswer(opts: Options, before: seq<Route>, late: seq<Route>, p: Path, m: string)
    requires p in Build(opts, before) && ForMethod(Build(opts, before)[p].handlers, m).Some?
    requires p in Build(opts, before + late) && ForMethod(Build(opts, before + late)[p].handlers, m).Some?
    ensures ForMethod(Build(opts, before)[p].handlers, m) == ForMethod(Build(opts, before + late)[p].handlers, m) <==>
            SameAnswer(opts, before, late, p, m)
  {
    hide Build, HandlersOf, IsFor;
    var e, f := Answering(opts, before, p, m), Answering(opts, before + late, p, m);
    AnswerOf(opts, before, p, m);
    AnswerOf(opts, before + late, p, m);
    HandlersOfMore(opts, before, late, p, f);
    if m in Build(opts, before)[p].handlers { KeepsMethod(opts, before, late, p, m); }
    AppendedNothing(HandlersOf(opts, before, p, f), HandlersOf(opts, late, p, f));
  }

  lemma KeepsMethod(opts: Options, before: seq<Route>, late: seq<Route>, p: Path, m: string)
    requires p in Build(opts, before) && m in Build(opts, before)[p].handlers
    ensures p in Build(opts, before + late) && m in Build(opts, before + late)[p].handlers
  {
    hide Build, IsFor, HandlersOf;
    BuildHandlers(opts, before, p, m);
    BuildHandlers(opts, before + late, p, m);
    var i :| 0 <= i < |before| && IsFor(opts, before[i], p) && before[i].method_ == m;
    assert (before + late)[i] == before[i];
  }

  // ----- runs -----------------------------------------------------------------------------

  /** The application after `n` calls. */
  function After(opts: Options, a: App, calls: seq<Call>, n: nat): App
    requires n <= |calls|
  {
    if n == 0 then a else Step(opts, After(opts, a, calls, n - 1), calls[n - 1])
  }

  lemma StartIsBounded(notFound: Handler)
    ensures Bounded(Start(notFound))
  {
  }

  /** Over every run the cache holds at most 1024 entries, each key listed once. */
  lemma {:induction false} CacheIsBounded(opts: Options, notFound: Handler, calls: seq<Call>, n: nat)
    requires n <= |calls|
    ensures Bounded(After(opts, Start(notFound), calls, n))
  {
    hide Step, Bounded;
    if n > 0 {
      CacheIsBounded(opts, notFound, calls, n - 1);
      StepKeepsBounded(opts, After(opts, Start(notFound), calls, n - 1), calls[n - 1]);
    } else {
      StartIsBounded(notFound);
    }
  }

  /** Methods are the same in any case, for routes and for requests. */
  lemma MethodCaseIsIgnored(opts: Options, a: App, path: string, handlers: seq<Handler>, pathname: string)
    ensures Step(opts, a, RouteCall("get", path, handlers)) == Step(opts, a, RouteCall("GET", path, handlers))
    ensures Ran(opts, a, "get", pathname) == Ran(opts, a, "GET", pathname)
    ensures Step(opts, a, FetchCall("get", pathname)) == Step(opts, a, FetchCall("GET", pathname))
  {
    hide *;
    UpperOfGet();
    UpperDecides(opts, a, "get", "GET", path, handlers, pathname);
  }

  lemma UpperOfGet()
    ensures Upper("get") == Upper("GET") == "GET"
  {
    assert |Upper("get")| == 3;
  }

  lemma UpperDecides(opts: Options, a: App, m: string, n: string, path: string, handlers: seq<Handler>,
                     pathname: string)
    requires Upper(m) == Upper(n)
    ensures Step(opts, a, RouteCall(m, path, handlers)) == Step(opts, a, RouteCall(n, path, handlers))
    ensures Ran(opts, a, m, pathname) == Ran(opts, a, n, pathname)
    ensures Step(opts, a, FetchCall(m, pathname)) == Step(opts, a, FetchCall(n, pathname))
  {
    hide Upper, TargetOf, PipelineOf, Served, FullPath;
  }

  // ----- which pipelines stay -------------------------------------------------------------

  function ServedAll(a: App, ts: seq<Target>): App
    decreases |ts|
  {
    if ts == [] then a else ServedAll(Served(a, ts[0]), ts[1..])
  }

  function Keys(ts: seq<Target>): (keys: seq<string>)
    ensures |keys| == |ts| && forall i | 0 <= i < |ts| :: keys[i] == CacheKey(ts[i])
  {
    seq(|ts|, i requires 0 <= i < |ts| => CacheKey(ts[i]))
  }

  /** At most the last 1024. */
  function Newest(keys: seq<string>): seq<string> {
    if |keys| > 1024 then keys[|keys| - 1024..] else keys
  }

  lemma NewestOfMore(keys: seq<string>, more: seq<string>)
    ensures Newest(Newest(keys) + more) == Newest(keys + more)
  {
    if |keys| > 1024 { assert (keys + more)[|keys| - 1024..] == keys[|keys| - 1024..] + more; }
  }

  lemma ServedNew(a: App, t: Target)
    requires Bounded(a) && CacheKey(t) !in a.order
    ensures Bounded(Served(a, t)) && Served(a, t).order == Newest(a.order + [CacheKey(t)])
  {
    hide *;
    NewKeyMisses(a, CacheKey(t));
    BoundedPruned(a);
    BoundedSnoc(Pruned(a), CacheKey(t), Entry(a.version, Wanted(a.global, t, a.notFound)));
    ServedIs(a, t);
    if |a.order| >= 1024 { assert a.order[1..] + [CacheKey(t)] == (a.order + [CacheKey(t)])[1..]; }
    NewestSnoc(a.order, CacheKey(t));
  }

  lemma NewestSnoc(order: seq<string>, key: string)
    requires |order| <= 1024
    ensures Newest(order + [key]) == if |order| == 1024 then (order + [key])[1..] else order + [key]
  {
  }

  lemma NewKeyMisses(a: App, key: string)
    requires Bounded(a) && key !in a.order
    ensures !InCache(a, key) && |a.order| <= 1024
  {
  }

  lemma BoundedPruned(a: App)
    requires Bounded(a)
    ensures var b := Pruned(a);
            Bounded(b) && |b.order| < 1024 && b.order == if |a.order| >= 1024 then a.order[1..] else a.order
  {
    if |a.order| >= 1024 { assert a.order[0] !in a.order[1..]; }
  }

  lemma BoundedSnoc(b: App, key: string, entry: Entry)
    requires Bounded(b) && |b.order| < 1024 && key !in b.order
    ensures Bounded(b.(cache := b.cache[key := entry], order := b.order + [key]))
  {
  }

  lemma ServedIs(a: App, t: Target)
    requires !InCache(a, CacheKey(t)) && CacheKey(t) !in Pruned(a).order
    ensures var b, key := Pruned(a), CacheKey(t);
            Served(a, t) == b.(cache := b.cache[key := Entry(a.version, Wanted(a.global, t, a.notFound))],
                               order := b.order + [key])
  {
    hide CacheKey, Wanted, Pruned, InCache;
  }

  /** Targets with new keys, each once, are cached in turn: the cache keeps the newest 1024 keys, in their order. */
  lemma {:induction false} NewestAreKept(a: App, ts: seq<Target>)
    requires Bounded(a) && Distinct(a.order + Keys(ts))
    ensures var b := ServedAll(a, ts);
            Bounded(b) && b.order == Newest(a.order + Keys(ts)) && b.cache.Keys == Elements(b.order)
    decreases |ts|
  {
    hide *;
    if ts == [] {
      NothingServed(a, ts);
    } else {
      var k, keys := CacheKey(ts[0]), Keys(ts[1..]);
      KeysStep(a, ts);
      FrontIsDistinct(a.order, k, keys);
      ServedNew(a, ts[0]);
      NewestIsDistinct(a.order + [k], keys);
      NewestAreKept(Served(a, ts[0]), ts[1..]);
      NewestOfMore(a.order + [k], keys);
      assert a.order + ([k] + keys) == a.order + [k] + keys;
    }
  }

  lemma KeysStep(a: App, ts: seq<Target>)
    requires ts != []
    ensures Keys(ts) == [CacheKey(ts[0])] + Keys(ts[1..]) && ServedAll(a, ts) == ServedAll(Served(a, ts[0]), ts[1..])
  {
    hide CacheKey, Served;
  }

  lemma NothingServed(a: App, ts: seq<Target>)
    requires Bounded(a) && ts == []
    ensures ServedAll(a, ts) == a && Newest(a.order + Keys(ts)) == a.order && a.cache.Keys == Elements(a.order)
  {
    BoundedOrder(a);
    assert a.order + Keys(ts) == a.order;
  }

  lemma BoundedOrder(a: App)
    requires Bounded(a)
    ensures Newest(a.order) == a.order && a.cache.Keys == Elements(a.order)
  {
  }

  lemma FrontIsDistinct(order: seq<string>, k: string, keys: seq<string>)
    requires Distinct(order + ([k] + keys))
    ensures k !in order && Distinct(order + [k] + keys)
  {
    var all := order + ([k] + keys);
    assert all == order + [k] + keys && all[|order|] == k;
    forall i | 0 <= i < |order| ensures order[i] != k { assert all[i] == order[i]; }
  }

  lemma NewestIsDistinct(order: seq<string>, keys: seq<string>)
    requires Distinct(order + keys)
    ensures Distinct(Newest(order) + keys)
  {
    var d := if |order| > 1024 then |order| - 1024 else 0;
    assert Newest(order) + keys == (order + keys)[d..];
  }

  /** The target of call `i`, if that is a fetch of a well-formed path. */
  function TargetAt(opts: Options, a: App, calls: seq<Call>, i: nat): Option<Target>
    requires i <= |calls|
  {
    if i < |calls| && calls[i].FetchCall?
    then TargetOf(opts, After(opts, a, calls, i).routes, Upper(calls[i].method_), calls[i].pathname)
    else None
  }

  /** What the target of call `i` stands for at that call. */
  function FinalAt(opts: Options, a: App, calls: seq<Call>, i: nat): Pipeline
    requires i <= |calls|
  {
    match TargetAt(opts, a, calls, i)
    case Some(t) => Final(t, After(opts, a, calls, i).notFound)
    case None => []
  }

  /** Call `i` is a fetch that composes a pipeline and caches it under `key`. */
  predicate Composes(opts: Options, a: App, calls: seq<Call>, i: nat, key: string)
    requires i < |calls|
  {
    && TargetAt(opts, a, calls, i).Some? && CacheKey(TargetAt(opts, a, calls, i).value) == key
    && !InCache(After(opts, a, calls, i), key)
  }

  lemma StepKeepsEntry(opts: Options, a: App, calls: seq<Call>, n: nat, key: string)
    requires n < |calls| && key in After(opts, a, calls, n + 1).cache && !Composes(opts, a, calls, n, key)
    ensures var s, t := After(opts, a, calls, n), After(opts, a, calls, n + 1);
            key in s.cache && t.cache[key] == s.cache[key] && t.version == s.version && t.global == s.global
  {
    hide TargetOf, CacheKey, Wanted;
  }

  /** The last fetch of the first `n` calls that has cached something for `key`. */
  function CachedBy(opts: Options, a: App, calls: seq<Call>, n: nat, key: string): (j: nat)
    requires n <= |calls|
    ensures j <= n
  {
    if n == 0 then 0
    else if Composes(opts, a, calls, n - 1, key) then n - 1
    else CachedBy(opts, a, calls, n - 1, key)
  }

  /** What the cache holds for `key` was cached by that fetch. */
  lemma {:induction false} CachedByComposes(opts: Options, a: App, calls: seq<Call>, n: nat, key: string)
    requires n <= |calls| && a.cache == map[] && key in After(opts, a, calls, n).cache
    ensures var j := CachedBy(opts, a, calls, n, key); j < n && Composes(opts, a, calls, j, key)
  {
    hide After, Composes;
    EntryIsFrom(opts, a, calls, n, key);
    if !Composes(opts, a, calls, n - 1, key) { CachedByComposes(opts, a, calls, n - 1, key); }
  }

  lemma EntryIsFrom(opts: Options, a: App, calls: seq<Call>, n: nat, key: string)
    requires n <= |calls| && a.cache == map[] && key in After(opts, a, calls, n).cache
    ensures n > 0 && (!Composes(opts, a, calls, n - 1, key) ==> key in After(opts, a, calls, n - 1).cache)
  {
    hide Composes, Step;
    if n > 0 && !Composes(opts, a, calls, n - 1, key) { StepKeepsEntry(opts, a, calls, n - 1, key); }
  }

  /** What the cache holds was wanted when it was composed, and the middleware is still the same. */
  lemma {:induction false} CachedWasWanted(opts: Options, a: App, calls: seq<Call>, n: nat, key: string)
    requires n <= |calls| && a.cache == map[] && key in After(opts, a, calls, n).cache
    ensures var s := After(opts, a, calls, n);
            var j := CachedBy(opts, a, calls, n, key);
            s.cache[key] == Entry(s.version, Runs(s.global) + FinalAt(opts, a, calls, j))
  {
    hide After, Composes, FinalAt, Runs;
    EntryIsFrom(opts, a, calls, n, key);
    if Composes(opts, a, calls, n - 1, key) {
      ComposedIsWanted(opts, a, calls, n - 1, key);
    } else {
      StepKeepsEntry(opts, a, calls, n - 1, key);
      CachedWasWanted(opts, a, calls, n - 1, key);
    }
  }

  lemma ComposedIsWanted(opts: Options, a: App, calls: seq<Call>, n: nat, key: string)
    requires n < |calls| && Composes(opts, a, calls, n, key)
    ensures var s, t := After(opts, a, calls, n), After(opts, a, calls, n + 1);
            key in t.cache
            && t.cache[key] == Entry(t.version, Runs(t.global) + FinalAt(opts, a, calls, n))
  {
    hide TargetOf, CacheKey, Final, Runs;
  }

  /**
   Over every run of `use`, route and not-found registrations and requests: a request runs the wanted pipeline, which
   is the current middleware and the current handlers of its target, if and only if its key is not cached or stands for
   the same handlers as at the request that cached it.
   */
  lemma FetchRunsWanted(opts: Options, notFound: Handler, calls: seq<Call>, i: nat)
    requires i < |calls| && TargetAt(opts, Start(notFound), calls, i).Some?
    ensures var a := Start(notFound);
            var s, t := After(opts, a, calls, i), TargetAt(opts, a, calls, i).value;
            Ran(opts, s, calls[i].method_, calls[i].pathname) == Some(Wanted(s.global, t, s.notFound)) <==>
            (CacheKey(t) in s.cache ==>
               FinalAt(opts, a, calls, CachedBy(opts, a, calls, i, CacheKey(t))) == FinalAt(opts, a, calls, i))
  {
    var a := Start(notFound);
    var s, t := After(opts, a, calls, i), TargetAt(opts, a, calls, i).value;
    hide TargetOf, CacheKey, After, Final;
    assert Ran(opts, s, calls[i].method_, calls[i].pathname) == Some(PipelineOf(s, t));
    assert Wanted(s.global, t, s.notFound) == Runs(s.global) + FinalAt(opts, a, calls, i);
    if CacheKey(t) in s.cache {
      CachedWasWanted(opts, a, calls, i, CacheKey(t));
      var j := CachedBy(opts, a, calls, i, CacheKey(t));
      SameMiddleware(Runs(s.global), FinalAt(opts, a, calls, j), FinalAt(opts, a, calls, i));
    }
  }

  lemma SameMiddleware(g: Pipeline, x: Pipeline, y: Pipeline)
    ensures g + x == g + y <==> x == y
  {
    if g + x == g + y { assert x == (g + x)[|g|..] && y == (g + y)[|g|..]; }
  }

  // ----- the order of stages --------------------------------------------------------------

  /** The handlers of the calls of `use`, in order of the calls. */
  function UsedIn(calls: seq<Call>): seq<Handler> {
    if calls == [] then []
    else
      var last := calls[|calls| - 1];
      UsedIn(calls[..|calls| - 1]) + if last.UseCall? then last.handlers else []
  }

  lemma {:induction false} GlobalIsUsed(opts: Options, notFound: Handler, calls: seq<Call>, n: nat)
    requires n <= |calls|
    ensures After(opts, Start(notFound), calls, n).global == UsedIn(calls[..n])
  {
    if n > 0 {
      GlobalIsUsed(opts, notFound, calls, n - 1);
      assert calls[..n][..n - 1] == calls[..n - 1];
      hide Step;
      OnlyUseAdds(opts, After(opts, Start(notFound), calls, n - 1), calls[n - 1]);
    }
  }

  lemma OnlyUseAdds(opts: Options, a: App, call: Call)
    ensures Step(opts, a, call).global == a.global + if call.UseCall? then call.handlers else []
  {
    hide TargetOf, CacheKey, Wanted;
    assert a.global + [] == a.global;
  }

  /** The wanted pipeline: first the handlers of all calls of `use` in order, stage by stage, then those of the match in
      order, or the answer 405 with the allowed methods, or the not-found handler. */
  lemma StagesInOrder(opts: Options, notFound: Handler, calls: seq<Call>, n: nat, t: Target)
    requires n <= |calls|
    ensures var s := After(opts, Start(notFound), calls, n);
            var used, p := UsedIn(calls[..n]), Wanted(s.global, t, s.notFound);
            && |p| == |used| + (if t.Hit? then |t.handlers| else 1)
            && (forall i | 0 <= i < |used| :: p[i] == Run(used[i]))
            && (t.Hit? ==> forall i | 0 <= i < |t.handlers| :: p[|used| + i] == Run(t.handlers[i]))
            && (t.Miss? ==> p[|used|] == NotFound(s.notFound))
            && (t.Wrong? ==> p[|used|] == NotAllowed(JoinWith(t.allowed, ", ")))
  {
    hide *;
    GlobalIsUsed(opts, notFound, calls, n);
    var s := After(opts, Start(notFound), calls, n);
    StagesOf(s.global, t, s.notFound);
  }

  lemma StagesOf(used: seq<Handler>, t: Target, notFound: Handler)
    ensures var p := Wanted(used, t, notFound);
            && |p| == |used| + (if t.Hit? then |t.handlers| else 1)
            && (forall i | 0 <= i < |used| :: p[i] == Run(used[i]))
            && (t.Hit? ==> forall i | 0 <= i < |t.handlers| :: p[|used| + i] == Run(t.handlers[i]))
            && (t.Miss? ==> p[|used|] == NotFound(notFound))
            && (t.Wrong? ==> p[|used|] == NotAllowed(JoinWith(t.allowed, ", ")))
  {
    var f := Final(t, notFound);
    assert |f| == if t.Hit? then |t.handlers| else 1;
    hide JoinWith, Final;
    assert Wanted(used, t, notFound) == Runs(used) + f;
    hide Wanted;
    LastStages(t, notFound);
  }

  lemma LastStages(t: Target, notFound: Handler)
    ensures var f := Final(t, notFound);
            && |f| == (if t.Hit? then |t.handlers| else 1)
            && (t.Hit? ==> forall i | 0 <= i < |t.handlers| :: f[i] == Run(t.handlers[i]))
            && (t.Miss? ==> f[0] == NotFound(notFound))
            && (t.Wrong? ==> f[0] == NotAllowed(JoinWith(t.allowed, ", ")))
  {
    hide JoinWith;
  }

  /** The Allow list of two methods. */
  lemma AllowOfTwo()
    ensures JoinWith(["GET", "POST"], ", ") == "GET, POST" && CacheKey(Wrong(["GET", "POST"])) == "405:GET,POST"
  {
    assert ["GET", "POST"][1..] == ["POST"];
    assert Join(["GET", "POST"], ',') == "GET" + "," + "POST";
  }

  // ----- what later registrations are missed ----------------------------------------------

  /** Calls with clean paths and methods that are tokens. */
  predicate CleanCall(call: Call) {
    match call
    case RouteCall(m, path, _) => CleanRoute(Route(Upper(m), FullPath(path), []))
    case FetchCall(m, _) => IsToken(Upper(m))
    case _ => true
  }

  predicate CleanCalls(calls: seq<Call>) { forall i | 0 <= i < |calls| :: CleanCall(calls[i]) }

  lemma {:induction false} RunIsClean(opts: Options, notFound: Handler, calls: seq<Call>, n: nat)
    requires CleanCalls(calls) && n <= |calls|
    ensures CleanRoutes(After(opts, Start(notFound), calls, n).routes)
  {
    if n > 0 {
      RunIsClean(opts, notFound, calls, n - 1);
      assert CleanCall(calls[n - 1]);
      hide CleanRoute, Served, TargetOf, FullPath, Upper;
      OnlyRoutesAreAdded(opts, After(opts, Start(notFound), calls, n - 1), calls[n - 1]);
      if calls[n - 1].RouteCall? {
        SameRoute(Upper(calls[n - 1].method_), FullPath(calls[n - 1].path), calls[n - 1].handlers);
      }
    }
  }

  lemma SameRoute(m: string, path: string, handlers: seq<Handler>)
    ensures CleanRoute(Route(m, path, handlers)) <==> CleanRoute(Route(m, path, []))
  {
  }

  lemma OnlyRoutesAreAdded(opts: Options, a: App, call: Call)
    ensures Step(opts, a, call).routes
            == if call.RouteCall? then a.routes + [Route(Upper(call.method_), FullPath(call.path), call.handlers)]
               else a.routes
  {
    hide TargetOf, CacheKey, Wanted;
  }

  lemma {:induction false} RoutesGrow(opts: Options, a: App, calls: seq<Call>, j: nat, i: nat)
    requires j <= i <= |calls|
    ensures After(opts, a, calls, j).routes <= After(opts, a, calls, i).routes
    decreases i
  {
    if j < i {
      RoutesGrow(opts, a, calls, j, i - 1);
      OnlyRoutesAreAdded(opts, After(opts, a, calls, i - 1), calls[i - 1]);
      hide Step;
    }
  }

  /** The registrations between calls `j` and `i`. */
  function Late(opts: Options, a: App, calls: seq<Call>, j: nat, i: nat): seq<Route>
    requires j <= i <= |calls|
  {
    RoutesGrow(opts, a, calls, j, i);
    After(opts, a, calls, i).routes[|After(opts, a, calls, j).routes|..]
  }

  lemma FetchIsTarget(opts: Options, a: App, calls: seq<Call>, i: nat)
    requires CleanCalls(calls) && i < |calls| && TargetAt(opts, a, calls, i).Some?
    ensures IsTarget(opts, After(opts, a, calls, i).routes, TargetAt(opts, a, calls, i).value)
  {
    hide After, TargetOf, IsToken, Upper;
    assert CleanCall(calls[i]);
  }

  /**
   Over every run with clean paths: a request runs the wanted pipeline if and only if its key is not cached, or since
   the request that cached it nothing was registered with handlers for its node and method, and for a miss no other
   not-found handler. A 405 is never stale.
   */
  lemma LateIsMissedExactly(opts: Options, notFound: Handler, calls: seq<Call>, i: nat)
    requires CleanCalls(calls) && i < |calls| && TargetAt(opts, Start(notFound), calls, i).Some?
    ensures var a := Start(notFound);
            var s, t := After(opts, a, calls, i), TargetAt(opts, a, calls, i).value;
            Ran(opts, s, calls[i].method_, calls[i].pathname) == Some(Wanted(s.global, t, s.notFound)) <==>
            (CacheKey(t) in s.cache ==>
               var j := CachedBy(opts, a, calls, i, CacheKey(t));
               Unchanged(opts, After(opts, a, calls, j).routes, Late(opts, a, calls, j, i), t,
                         After(opts, a, calls, j).notFound, s.notFound))
  {
    hide *;
    var a := Start(notFound);
    FetchRunsWanted(opts, notFound, calls, i);
    assert a.cache == map[] by { StartIsEmpty(notFound); }
    var s, t := After(opts, a, calls, i), TargetAt(opts, a, calls, i).value;
    if CacheKey(t) in s.cache {
      var j := CachedBy(opts, a, calls, i, CacheKey(t));
      CachedByComposes(opts, a, calls, i, CacheKey(t));
      LateExactly(opts, notFound, calls, j, i, CacheKey(t));
    }
  }

  lemma StartIsEmpty(notFound: Handler)
    ensures Start(notFound).cache == map[] && Start(notFound).notFound == notFound && Start(notFound).routes == []
  {
  }

  lemma LateExactly(opts: Options, notFound: Handler, calls: seq<Call>, j: nat, i: nat, key: string)
    requires CleanCalls(calls) && j < i < |calls|
    requires TargetAt(opts, Start(notFound), calls, i).Some?
    requires CacheKey(TargetAt(opts, Start(notFound), calls, i).value) == key
    requires Composes(opts, Start(notFound), calls, j, key)
    ensures var a := Start(notFound);
            FinalAt(opts, a, calls, j) == FinalAt(opts, a, calls, i) <==>
            Unchanged(opts, After(opts, a, calls, j).routes, Late(opts, a, calls, j, i),
                      TargetAt(opts, a, calls, i).value,
                      After(opts, a, calls, j).notFound, After(opts, a, calls, i).notFound)
  {
    var a := Start(notFound);
    var before, after := After(opts, a, calls, j), After(opts, a, calls, i);
    var t, u := TargetAt(opts, a, calls, i).value, TargetAt(opts, a, calls, j).value;
    RoutesGrow(opts, a, calls, j, i);
    RunIsClean(opts, notFound, calls, i);
    FetchIsTarget(opts, a, calls, i);
    FetchIsTarget(opts, a, calls, j);
    ComposedKey(opts, a, calls, j, key);
    LateIs(opts, a, calls, j, i);
    FinalIs(opts, a, calls, i);
    FinalIs(opts, a, calls, j);
    hide *;
    UnchangedExactly(opts, before.routes, Late(opts, a, calls, j, i), u, t, before.notFound, after.notFound);
  }

  lemma ComposedKey(opts: Options, a: App, calls: seq<Call>, j: nat, key: string)
    requires j < |calls| && Composes(opts, a, calls, j, key)
    ensures TargetAt(opts, a, calls, j).Some? && CacheKey(TargetAt(opts, a, calls, j).value) == key
  {
  }

  lemma FinalIs(opts: Options, a: App, calls: seq<Call>, i: nat)
    requires i < |calls| && TargetAt(opts, a, calls, i).Some?
    ensures FinalAt(opts, a, calls, i) == Final(TargetAt(opts, a, calls, i).value, After(opts, a, calls, i).notFound)
  {
    hide TargetAt, After, Final;
  }

  lemma LateIs(opts: Options, a: App, calls: seq<Call>, j: nat, i: nat)
    requires j <= i <= |calls|
    ensures After(opts, a, calls, j).routes + Late(opts, a, calls, j, i) == After(opts, a, calls, i).routes
  {
    RoutesGrow(opts, a, calls, j, i);
    hide After;
  }

  /** All routes and the not-found handler are registered before the first request. */
  predicate SetUpFirst(calls: seq<Call>) {
    forall j, i | 0 <= j < i < |calls| && calls[j].FetchCall? :: !calls[i].RouteCall? && !calls[i].NotFoundCall?
  }

  lemma OnlyRequests(calls: seq<Call>, j: nat, i: nat)
    requires SetUpFirst(calls) && j <= i < |calls| && calls[j].FetchCall?
    ensures !calls[i].RouteCall? && !calls[i].NotFoundCall?
  {
  }

  lemma ServedKeeps(opts: Options, a: App, call: Call)
    requires !call.RouteCall? && !call.NotFoundCall?
    ensures Step(opts, a, call).routes == a.routes && Step(opts, a, call).notFound == a.notFound
  {
    hide TargetOf, CacheKey, Wanted;
  }

  lemma {:induction false} NothingRegistered(opts: Options, a: App, calls: seq<Call>, j: nat, i: nat)
    requires SetUpFirst(calls) && j < |calls| && calls[j].FetchCall? && j <= i <= |calls|
    ensures After(opts, a, calls, i).routes == After(opts, a, calls, j).routes
    ensures After(opts, a, calls, i).notFound == After(opts, a, calls, j).notFound
    decreases i
  {
    if j < i {
      NothingRegistered(opts, a, calls, j, i - 1);
      hide SetUpFirst, Served, TargetOf;
      assert !calls[i - 1].RouteCall? && !calls[i - 1].NotFoundCall? by { OnlyRequests(calls, j, i - 1); }
      ServedKeeps(opts, After(opts, a, calls, i - 1), calls[i - 1]);
      hide Step;
    }
  }

  /** When all registrations but middleware come before the first request, every request runs the wanted pipeline. */
  lemma SetUpThenServe(opts: Options, notFound: Handler, calls: seq<Call>, i: nat)
    requires CleanCalls(calls) && SetUpFirst(calls)
    requires i < |calls| && TargetAt(opts, Start(notFound), calls, i).Some?
    ensures var a := Start(notFound);
            var s, t := After(opts, a, calls, i), TargetAt(opts, a, calls, i).value;
            Ran(opts, s, calls[i].method_, calls[i].pathname) == Some(Wanted(s.global, t, s.notFound))
  {
    hide *;
    var a := Start(notFound);
    FetchRunsWanted(opts, notFound, calls, i);
    assert a.cache == map[] by { StartIsEmpty(notFound); }
    var s, t := After(opts, a, calls, i), TargetAt(opts, a, calls, i).value;
    if CacheKey(t) in s.cache {
      var j := CachedBy(opts, a, calls, i, CacheKey(t));
      CachedByComposes(opts, a, calls, i, CacheKey(t));
      SetUpIsSame(opts, notFound, calls, j, i, CacheKey(t));
    }
  }

  lemma SetUpIsSame(opts: Options, notFound: Handler, calls: seq<Call>, j: nat, i: nat, key: string)
    requires CleanCalls(calls) && SetUpFirst(calls) && j < i < |calls|
    requires TargetAt(opts, Start(notFound), calls, i).Some?
    requires CacheKey(TargetAt(opts, Start(notFound), calls, i).value) == key
    requires Composes(opts, Start(notFound), calls, j, key)
    ensures FinalAt(opts, Start(notFound), calls, j) == FinalAt(opts, Start(notFound), calls, i)
  {
    var a := Start(notFound);
    ComposedKey(opts, a, calls, j, key);
    assert calls[j].FetchCall?;
    NothingRegistered(opts, a, calls, j, i);
    RunIsClean(opts, notFound, calls, i);
    FetchIsTarget(opts, a, calls, i);
    FetchIsTarget(opts, a, calls, j);
    FinalIs(opts, a, calls, i);
    FinalIs(opts, a, calls, j);
    hide FinalAt, Final, After, TargetAt, CacheKey, CleanRoutes, IsTarget, CleanCalls, SetUpFirst;
    RouteTableIsConsistent(opts, After(opts, a, calls, i).routes, TargetAt(opts, a, calls, i).value,
                           TargetAt(opts, a, calls, j).value);
  }

  // ----- the inputs -----------------------------------------------------------------------

  /** Registrations of `/a` for GET only. */
  predicate AllForA(routes: seq<Route>) {
    forall i | 0 <= i < |routes| :: routes[i].method_ == "GET" && routes[i].path == "/a"
  }

  lemma TargetOfA(opts: Options, routes: seq<Route>)
    requires AllForA(routes) && routes != []
    ensures TargetOf(opts, routes, "GET", "/a") == Some(Hit("GET", "/a", HandlersOf(opts, routes, [Lit("a")], "GET")))
  {
    hide Build, SplitPath, WalkMatch, HandlersOf;
    PathsOfA(opts);
    assert routes[0].path == "/a" && IsFor(opts, routes[0], [Lit("a")]);
    BuildHandlers(opts, routes, [Lit("a")], "GET");
    BuildAgrees(opts, routes);
    FastHasA(opts, routes);
  }

  /** `/a` is in the fast map. */
  lemma FastHasA(opts: Options, routes: seq<Route>)
    requires AllForA(routes) && routes != []
    ensures var fast := BuildFast(opts, routes);
            "/a" in fast && "GET" in fast["/a"]
            && fast["/a"]["GET"] == Fast(HandlersAt(Build(opts, routes), [Lit("a")], "GET"), "/a")
  {
    hide Build, SplitPath, FastKey;
    PathsOfA(opts);
    var last := routes[|routes| - 1];
    assert PatternOf(SplitPath(opts, last.path)) == Pattern([Lit("a")]);
    assert !HasMarker("/a");
  }

  /** Without registrations every request is a miss. */
  lemma TargetWithoutRoutes(opts: Options, m: string, pathname: string)
    ensures TargetOf(opts, [], m, pathname) == Some(Miss)
  {
    assert BuildFast(opts, []) == map[] && Build(opts, []) == EMPTY_TRIE;
    hide SplitPath, NormalizeLookup, Build, BuildFast, Find, WalkNode;
    NothingInEmptyTrie(opts, SplitPath(opts, pathname));
  }

  lemma NothingInEmptyTrie(opts: Options, segments: seq<string>)
    ensures WalkNode(EMPTY_TRIE, opts, [], segments, map[], false) == Walked(Nowhere, map[])
    ensures Find(EMPTY_TRIE, opts, [], segments, map[], true) == Missing
  {
    forall p, k {:trigger Child(p, k)} ensures Child(p, k) !in EMPTY_TRIE { assert |Child(p, k)| > 0; }
    hide Child;
  }

  /** A route for `/a` that is registered after a request for `/a` is not seen by the next request. */
  method LateRouteIsMissed(opts: Options, g: Handler, h: Handler, notFound: Handler)
    returns (first: Option<Pipeline>, second: Option<Pipeline>)
    ensures first == second == Some([Run(g)])
    ensures var routes := [Route("GET", "/a", [g]), Route("GET", "/a", [h])];
            TargetOf(opts, routes, "GET", "/a") == Some(Hit("GET", "/a", [g, h]))
  {
    hide *;
    var app := new Mino(opts, notFound);
    var r := app.AddRoute("GET", "/a", [g]);
    first := app.Fetch("GET", "/a");
    r := app.AddRoute("GET", "/a", [h]);
    second := app.Fetch("GET", "/a");
    LateRoute(opts, g, h, notFound);
  }

  lemma LateRoute(opts: Options, g: Handler, h: Handler, notFound: Handler)
    ensures var a := Step(opts, Start(notFound), RouteCall("GET", "/a", [g]));
            var b := Step(opts, Step(opts, a, FetchCall("GET", "/a")), RouteCall("GET", "/a", [h]));
            Ran(opts, a, "GET", "/a") == Ran(opts, b, "GET", "/a") == Some([Run(g)])
    ensures var routes := [Route("GET", "/a", [g]), Route("GET", "/a", [h])];
            TargetOf(opts, routes, "GET", "/a") == Some(Hit("GET", "/a", [g, h]))
  {
    hide *;
    var first, second := Route("GET", "/a", [g]), Route("GET", "/a", [h]);
    var t, u := Hit("GET", "/a", [g]), Hit("GET", "/a", [g, h]);
    var a := App([first], [], 0, notFound, map[], []);
    var b := Served(a, t);
    AsGiven();
    TargetsOfA(opts, g, h);
    RouteStep(opts, Start(notFound), "GET", "/a", [g]);
    StartWith(notFound, first);
    FetchStep(opts, a, "GET", "/a", t);
    RoutesStay(a, t);
    RouteStep(opts, b, "GET", "/a", [h]);
    assert [first] + [second] == [first, second];
    FetchStep(opts, b.(routes := [first, second]), "GET", "/a", u);
    SameHitKey("GET", "/a", [g], [g, h]);
    NothingCached(a, CacheKey(t));
    RepeatedKey(a, t, u, [first, second], notFound);
    assert b.(routes := [first, second]) == b.(routes := [first, second], notFound := notFound);
    OnlyHandler(t, g, notFound);
  }

  lemma AsGiven()
    ensures Upper("GET") == "GET" && FullPath("/a") == "/a"
  {
  }

  lemma TargetsOfA(opts: Options, g: Handler, h: Handler)
    ensures TargetOf(opts, [Route("GET", "/a", [g])], "GET", "/a") == Some(Hit("GET", "/a", [g]))
    ensures TargetOf(opts, [Route("GET", "/a", [g]), Route("GET", "/a", [h])], "GET", "/a")
            == Some(Hit("GET", "/a", [g, h]))
  {
    hide TargetOf;
    HandlersOfTwo(opts, g, h);
    TargetOfA(opts, [Route("GET", "/a", [g])]);
    TargetOfA(opts, [Route("GET", "/a", [g]), Route("GET", "/a", [h])]);
  }

  lemma StartWith(notFound: Handler, r: Route)
    ensures Start(notFound).(routes := Start(notFound).routes + [r]) == App([r], [], 0, notFound, map[], [])
  {
    assert [] + [r] == [r];
  }

  lemma NothingCached(a: App, key: string)
    requires a.cache == map[]
    ensures !InCache(a, key)
  {
  }

  lemma OnlyHandler(t: Target, g: Handler, notFound: Handler)
    requires t.Hit? && t.handlers == [g]
    ensures Wanted([], t, notFound) == [Run(g)]
  {
  }

  lemma RouteStep(opts: Options, a: App, m: string, path: string, hs: seq<Handler>)
    ensures Step(opts, a, RouteCall(m, path, hs)) == a.(routes := a.routes + [Route(Upper(m), FullPath(path), hs)])
  {
    hide Upper, FullPath;
  }

  lemma FetchStep(opts: Options, a: App, m: string, pathname: string, t: Target)
    requires TargetOf(opts, a.routes, Upper(m), pathname) == Some(t)
    ensures Step(opts, a, FetchCall(m, pathname)) == Served(a, t) && Ran(opts, a, m, pathname) == Some(PipelineOf(a, t))
  {
    hide TargetOf, Served, PipelineOf, Upper;
  }

  lemma SameHitKey(m: string, path: string, x: seq<Handler>, y: seq<Handler>)
    ensures CacheKey(Hit(m, path, x)) == CacheKey(Hit(m, path, y))
  {
  }

  /** Whatever is registered after a target has been served, the next target with its key runs the same pipeline. */
  lemma RepeatedKey(a: App, t: Target, u: Target, routes: seq<Route>, notFound: Handler)
    requires CacheKey(t) == CacheKey(u) && !InCache(a, CacheKey(t))
    ensures PipelineOf(a, t) == Wanted(a.global, t, a.notFound)
    ensures PipelineOf(Served(a, t).(routes := routes, notFound := notFound), u) == Wanted(a.global, t, a.notFound)
  {
    hide CacheKey, Wanted;
  }

  lemma RoutesStay(a: App, t: Target)
    ensures Served(a, t).routes == a.routes && Served(a, t).notFound == a.notFound
  {
  }

  lemma HandlersOfTwo(opts: Options, g: Handler, h: Handler)
    ensures var one, two := [Route("GET", "/a", [g])], [Route("GET", "/a", [g]), Route("GET", "/a", [h])];
            && HandlersOf(opts, one, [Lit("a")], "GET") == [g]
            && HandlersOf(opts, two, [Lit("a")], "GET") == [g, h]
  {
    PathsOfA(opts);
    hide SplitPath;
    var one, two := [Route("GET", "/a", [g])], [Route("GET", "/a", [g]), Route("GET", "/a", [h])];
    assert one[..0] == [] && two[..1] == one;
    assert HandlersOf(opts, one, [Lit("a")], "GET") == [] + [g];
  }

  /** A not-found handler that is set after a miss is not run by the next miss. */
  method LateNotFoundIsMissed(opts: Options, old_: Handler, new_: Handler, m: string, pathname: string)
    returns (first: Option<Pipeline>, second: Option<Pipeline>)
    ensures first == second == Some([NotFound(old_)])
    ensures TargetOf(opts, [], Upper(m), pathname) == Some(Miss)
  {
    hide *;
    var app := new Mino(opts, old_);
    first := app.Fetch(m, pathname);
    app.SetNotFound(new_);
    second := app.Fetch(m, pathname);
    TargetWithoutRoutes(opts, Upper(m), pathname);
    LateNotFound(opts, old_, new_, m, pathname);
  }

  lemma LateNotFound(opts: Options, old_: Handler, new_: Handler, m: string, pathname: string)
    ensures var a := Start(old_);
            var b := Step(opts, Step(opts, a, FetchCall(m, pathname)), NotFoundCall(new_));
            Ran(opts, a, m, pathname) == Ran(opts, b, m, pathname) == Some([NotFound(old_)])
  {
    TargetWithoutRoutes(opts, Upper(m), pathname);
    hide TargetOf, Upper, Served, PipelineOf;
    assert Wanted([], Miss, old_) == [NotFound(old_)];
    RepeatedKey(Start(old_), Miss, Miss, [], new_);
    RoutesStay(Start(old_), Miss);
  }
}
