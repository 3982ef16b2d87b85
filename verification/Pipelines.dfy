/** The application object: registrations, and the cache of composed pipelines that requests run. */
module Pipelines {
  import opened Results
  import opened Text
  import opened TrieSpec
  import opened RouteTable
  import opened ParamObjects
  import opened Lists
  import Routing = Router

  const CACHE_SIZE := 1024

  /** A stage of a pipeline: a handler, the 405 answer with its Allow list, or the not-found handler. */
  datatype Stage = Run(handler: Handler) | NotAllowed(allow: string) | NotFound(handler: Handler)

  type Pipeline = seq<Stage>

  /** What routing says of a request: a match, other methods are allowed, or nothing. */
  datatype Target =
    | Hit(method_: string, routePath: string, handlers: seq<Handler>)
    | Wrong(allowed: seq<string>)
    | Miss

  function Runs(hs: seq<Handler>): (p: Pipeline)
    ensures |p| == |hs| && forall i | 0 <= i < |hs| :: p[i] == Run(hs[i])
  {
    seq(|hs|, i requires 0 <= i < |hs| => Run(hs[i]))
  }

  function JoinWith(parts: seq<string>, sep: string): string {
    if parts == [] then "" else if |parts| == 1 then parts[0] else parts[0] + sep + JoinWith(parts[1..], sep)
  }

  /** The target of a request under these registrations; none for a path with a bad encoding, which is answered 400. */
  function TargetOf(opts: Options, routes: seq<Route>, m: string, pathname: string): Option<Target> {
    match CodeMatch(opts, BuildFast(opts, routes), Build(opts, routes), m, pathname)
    case BadRequest => None
    case Matched(handlers, _, routePath) => Some(Hit(m, routePath, handlers))
    case NoMatch => Some(WithoutMatch(AllowedMethods(opts, Build(opts, routes), pathname)))
  }

  function WithoutMatch(allowed: seq<string>): Target { if allowed == [] then Miss else Wrong(allowed) }

  function CacheKey(t: Target): string {
    match t
    case Hit(m, routePath, _) => m + ":" + routePath
    case Wrong(allowed) => "405:" + Join(allowed, ',')
    case Miss => "404"
  }

  /** The handlers behind the middleware. */
  function Final(t: Target, notFound: Handler): Pipeline {
    match t
    case Hit(_, _, handlers) => Runs(handlers)
    case Wrong(allowed) => [NotAllowed(JoinWith(allowed, ", "))]
    case Miss => [NotFound(notFound)]
  }

  /** The pipeline a request should run. */
  function Wanted(global: seq<Handler>, t: Target, notFound: Handler): Pipeline { Runs(global) + Final(t, notFound) }

  datatype Entry = Entry(version: nat, pipeline: Pipeline)

  // ----- the application as a value -------------------------------------------------------

  /** Registrations, and the pipeline cache with its keys in order of insertion. */
  datatype App = App(routes: seq<Route>, global: seq<Handler>, version: nat, notFound: Handler,
                     cache: map<string, Entry>, order: seq<string>)

  datatype Call =
    | UseCall(handlers: seq<Handler>)
    | RouteCall(method_: string, path: string, handlers: seq<Handler>)
    | NotFoundCall(handler: Handler)
    | FetchCall(method_: string, pathname: string)

  predicate InCache(a: App, key: string) { key in a.cache && a.cache[key].version == a.version }

  /** The pipeline that a request with this target runs. */
  function PipelineOf(a: App, t: Target): Pipeline {
    if InCache(a, CacheKey(t)) then a.cache[CacheKey(t)].pipeline else Wanted(a.global, t, a.notFound)
  }

  /** A full cache drops its oldest entry. */
  function Pruned(a: App): App {
    if |a.order| >= CACHE_SIZE then a.(cache := a.cache - {a.order[0]}, order := a.order[1..]) else a
  }

  function Served(a: App, t: Target): App {
    var key := CacheKey(t);
    if InCache(a, key) then a
    else
      var b := Pruned(a);
      b.(cache := b.cache[key := Entry(a.version, Wanted(a.global, t, a.notFound))],
         order := if key in b.order then b.order else b.order + [key])
  }

  function FullPath(path: string): string { WithSlash(path) }

  function Step(opts: Options, a: App, call: Call): App {
    match call
    case UseCall(handlers) => a.(global := a.global + handlers, version := a.version + 1, cache := map[], order := [])
    case RouteCall(m, path, handlers) => a.(routes := a.routes + [Route(Upper(m), FullPath(path), handlers)])
    case NotFoundCall(handler) => a.(notFound := handler)
    case FetchCall(m, pathname) =>
      match TargetOf(opts, a.routes, Upper(m), pathname)
      case None => a
      case Some(t) => Served(a, t)
  }

  /** What a request runs. */
  function Ran(opts: Options, a: App, m: string, pathname: string): Option<Pipeline> {
    match TargetOf(opts, a.routes, Upper(m), pathname)
    case None => None
    case Some(t) => Some(PipelineOf(a, t))
  }

  function Start(notFound: Handler): App { App([], [], 0, notFound, map[], []) }

  // ----- the object -----------------------------------------------------------------------

  class Mino {
    const router: Routing.Router
    var globalMiddleware: seq<Handler>
    var globalVersion: nat
    var notFoundHandler: Handler
    var cache: map<string, Entry>
    /** The keys of the cache in order of insertion. */
    var order: seq<string>

    ghost predicate Valid() reads router, router.nodes { router.Valid() }

    ghost function Model(): App reads this, router {
      App(router.routes, globalMiddleware, globalVersion, notFoundHandler, cache, order)
    }

    constructor (opts: Options, notFound: Handler)
      ensures Valid() && fresh(router) && fresh(router.nodes)
      ensures router.opts == opts && Model() == Start(notFound)
    {
      hide Routing.Router.Valid;
      router := new Routing.Router(opts);
      globalMiddleware, globalVersion, notFoundHandler, cache, order := [], 0, notFound, map[], [];
    }

    /** Late middleware drops every compiled pipeline. */
    method Use(handlers: seq<Handler>)
      requires Valid()
      modifies `globalMiddleware, `globalVersion, `cache, `order
      ensures Valid() && Model() == Step(router.opts, old(Model()), UseCall(handlers))
    {
      hide Valid;
      globalMiddleware := globalMiddleware + handlers;
      globalVersion := globalVersion + 1;
      cache, order := map[], [];
    }

    /** Register a route; the cache stays as it is. */
    method AddRoute(m: string, path: string, handlers: seq<Handler>) returns (r: Routing.AddResult)
      requires Valid()
      modifies router`routes, router`fastStatic, router`tree, router`nodes, router.nodes
      ensures Valid() && fresh(router.nodes - old(router.nodes))
      ensures Model() == Step(router.opts, old(Model()), RouteCall(m, path, handlers))
    {
      r := router.Add(m, FullPath(path), handlers);
    }

    method SetNotFound(handler: Handler)
      requires Valid()
      modifies `notFoundHandler
      ensures Valid() && Model() == Step(router.opts, old(Model()), NotFoundCall(handler))
    {
      hide Valid;
      notFoundHandler := handler;
    }

    /** Route a request, then run its cached pipeline or compose one; none for a bad path. */
    method Fetch(m: string, pathname: string) returns (p: Option<Pipeline>)
      requires Valid()
      modifies `cache, `order
      ensures Valid() && Model() == Step(router.opts, old(Model()), FetchCall(m, pathname))
      ensures p == Ran(router.opts, old(Model()), m, pathname)
    {
      hide Served, PipelineOf, Valid, TargetOf;
      UpperTwice(m);
      var t := Routed(Upper(m), pathname);
      if t.None? { return None; }
      var q := PipelineFor(t.value);
      return Some(q);
    }

    lemma RoutingIsValid()
      requires Valid()
      ensures router.Valid() && router.Owned() && router.Content() == Build(router.opts, router.routes)
      ensures router.fastStatic == BuildFast(router.opts, router.routes)
    {
    }

    method Routed(m: string, pathname: string) returns (t: Option<Target>)
      requires Valid() && Upper(m) == m
      ensures t == TargetOf(router.opts, router.routes, m, pathname)
    {
      hide *;
      RoutingIsValid();
      TargetIs(router.opts, router.routes, m, pathname);
      var found := router.Match(m, pathname);
      match found {
        case BadRequest => return None;
        case Matched(handlers, _, routePath) => return Some(Hit(m, routePath, handlers));
        case NoMatch =>
          var allowed := router.GetAllowedMethods(pathname);
          return Some(WithoutMatch(allowed));
      }
    }

    /** The part of `fetch` that finds or composes the pipeline of a request. */
    method PipelineFor(t: Target) returns (p: Pipeline)
      modifies `cache, `order
      ensures Model() == Served(old(Model()), t) && p == PipelineOf(old(Model()), t)
    {
      hide Wanted, CacheKey;
      var key := CacheKey(t);
      if key in cache && cache[key].version == globalVersion { return cache[key].pipeline; }
      if |globalMiddleware| == 0 {
        p := Final(t, notFoundHandler);
      } else {
        p := Runs(globalMiddleware) + Final(t, notFoundHandler);
      }
      WantedIs(globalMiddleware, t, notFoundHandler);
      if |order| >= CACHE_SIZE {
        cache, order := cache - {order[0]}, order[1..];
      }
      if key !in order { order := order + [key]; }
      cache := cache[key := Entry(globalVersion, p)];
    }
  }

  lemma TargetIs(opts: Options, routes: seq<Route>, m: string, pathname: string)
    ensures var found, t := CodeMatch(opts, BuildFast(opts, routes), Build(opts, routes), m, pathname),
                            TargetOf(opts, routes, m, pathname);
            && (found.BadRequest? ==> t == None)
            && (found.Matched? ==> t == Some(Hit(m, found.routePath, found.handlers)))
            && (found.NoMatch? ==> t == Some(WithoutMatch(AllowedMethods(opts, Build(opts, routes), pathname))))
  {
    hide CodeMatch, Build, BuildFast, AllowedMethods;
  }

  lemma UpperTwice(s: string)
    ensures Upper(Upper(s)) == Upper(s)
  {
  }

  lemma WantedIs(global: seq<Handler>, t: Target, notFound: Handler)
    ensures Wanted(global, t, notFound)
            == if global == [] then Final(t, notFound) else Runs(global) + Final(t, notFound)
  {
    assert Runs([]) + Final(t, notFound) == Final(t, notFound);
  }

  /** The cache is small, and its keys are listed once. */
  ghost predicate Bounded(a: App) {
    Listed(a.order, a.cache) && |a.order| <= CACHE_SIZE
  }

  lemma StepKeepsBounded(opts: Options, a: App, call: Call)
    requires Bounded(a)
    ensures Bounded(Step(opts, a, call))
  {
    hide TargetOf, CacheKey, Wanted;
    if |a.order| >= CACHE_SIZE { assert a.order[0] !in a.order[1..]; }
  }
}
