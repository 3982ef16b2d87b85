/** The trie that a sequence of route registrations builds, and the text of paths. */
module RouteTable {
  import opened Text
  import opened TrieSpec
  import opened Results

  datatype Route = Route(method_: string, path: string, handlers: seq<Handler>)

  // ----- paths ----------------------------------------------------------------------------

  function WithSlash(path: string): (p: string)
    ensures p != "" && p[0] == '/'
  {
    if path != "" && path[0] == '/' then path else "/" + path
  }

  /** The trailing slash goes unless the router is strict. */
  function NormalizeLookup(opts: Options, pathname: string): string {
    if !opts.strict && |pathname| > 1 && pathname[|pathname| - 1] == '/' then pathname[..|pathname| - 1] else pathname
  }

  function SplitPath(opts: Options, path: string): seq<string> {
    var p := NormalizeLookup(opts, Text.Before(Text.Before(WithSlash(path), '?'), '#'));
    if p == "/" then []
    else Split(if p != "" && p[0] == '/' then p[1..] else p, '/')
  }

  /** Neither query nor fragment. */
  predicate CleanPath(path: string) { '?' !in path && '#' !in path }

  predicate HasMarker(path: string) { ':' in path || '*' in path }

  // ----- patterns -------------------------------------------------------------------------

  /** The keys of a pattern, or its defect: an inner `*` or a nameless `:`. */
  datatype Pattern = Pattern(keys: Path) | InnerWildcard | NamelessParam

  function PatternOf(segments: seq<string>): Pattern {
    if segments == [] then Pattern([])
    else if segments[0] == "*" then if |segments| == 1 then Pattern([Wild]) else InnerWildcard
    else if segments[0] == ":" then NamelessParam
    else
      match PatternOf(segments[1..])
      case Pattern(keys) => Pattern([SegmentKey(segments[0])] + keys)
      case defect => defect
  }

  function SegmentKey(segment: string): Key {
    if segment == "*" then Wild else if segment != "" && segment[0] == ':' then Par else Lit(segment)
  }

  /** The name that a node for this segment gets when it is created. */
  function SegmentName(segment: string): string {
    if segment == "*" then "wildcard" else if segment != "" && segment[0] == ':' then segment[1..] else ""
  }

  // ----- registration ---------------------------------------------------------------------

  function Ensure(c: Trie, p: Path, segment: string): Trie {
    if p in c then c else c[p := NewInfo(SegmentName(segment))]
  }

  /** Create the missing nodes on the way, up to the first defect of the pattern. */
  function AddNodes(c: Trie, p: Path, segments: seq<string>): Trie
    decreases |segments|
  {
    if segments == [] then c
    else if segments[0] == "*" && |segments| > 1 then c
    else if segments[0] == ":" then c
    else
      var q := Child(p, SegmentKey(segments[0]));
      AddNodes(Ensure(c, q, segments[0]), q, segments[1..])
  }

  function HandlersAt(c: Trie, p: Path, m: string): seq<Handler> {
    if p in c && m in c[p].handlers then c[p].handlers[m] else []
  }

  function SetHandlers(c: Trie, p: Path, m: string, handlers: seq<Handler>, pattern: string): Trie
    requires p in c
  {
    c[p := c[p].(handlers := c[p].handlers[m := HandlersAt(c, p, m) + handlers], pattern := pattern,
                 methods := if m in c[p].handlers then c[p].methods else c[p].methods + [m])]
  }

  /** The trie after one registration; a defective pattern leaves the nodes made before the defect. */
  function AddRoute(opts: Options, c: Trie, r: Route): Trie
    requires [] in c
  {
    var segments := SplitPath(opts, r.path);
    var grown := AddNodes(c, [], segments);
    match PatternOf(segments)
    case Pattern(keys) =>
      AddNodesReaches(c, [], segments);
      assert [] + keys == keys;
      SetHandlers(grown, keys, r.method_, r.handlers, r.path)
    case _ => grown
  }

  lemma {:induction false} AddNodesReaches(c: Trie, p: Path, segments: seq<string>)
    requires p in c && PatternOf(segments).Pattern?
    ensures p + PatternOf(segments).keys in AddNodes(c, p, segments)
    ensures forall q | q in c :: q in AddNodes(c, p, segments)
    decreases |segments|
  {
    if segments == [] {
      assert p + [] == p;
    } else {
      var k := SegmentKey(segments[0]);
      var q := Child(p, k);
      AddNodesReaches(Ensure(c, q, segments[0]), q, segments[1..]);
      if segments[0] == "*" {
        assert PatternOf(segments[1..]) == Pattern([]);
        assert q + [] == q == p + [Wild];
      } else {
        assert q + PatternOf(segments[1..]).keys == p + PatternOf(segments).keys;
      }
    }
  }

  const EMPTY_TRIE: Trie := map[[] := NewInfo("")]

  /** The trie after a sequence of registrations. */
  function Build(opts: Options, routes: seq<Route>): (c: Trie)
    ensures [] in c
  {
    if routes == [] then EMPTY_TRIE
    else
      var last := routes[|routes| - 1];
      AddNodesKeeps(Build(opts, routes[..|routes| - 1]), [], SplitPath(opts, last.path));
      AddRoute(opts, Build(opts, routes[..|routes| - 1]), last)
  }

  /** Creating nodes keeps all that is there; what it adds has no handlers. */
  lemma {:induction false} AddNodesKeeps(c: Trie, p: Path, segments: seq<string>)
    ensures var d := AddNodes(c, p, segments);
            && (forall q | q in c :: q in d && d[q] == c[q])
            && (forall q | q in d && q !in c :: d[q].handlers == map[])
    decreases |segments|
  {
    if segments == [] || (segments[0] == "*" && |segments| > 1) || segments[0] == ":" {
    } else {
      var q := Child(p, SegmentKey(segments[0]));
      AddNodesKeeps(Ensure(c, q, segments[0]), q, segments[1..]);
    }
  }

  // ----- the static fast map --------------------------------------------------------------

  datatype Fast = Fast(handlers: seq<Handler>, pattern: string)

  type FastMap = map<string, map<string, Fast>>

  function FastKey(opts: Options, path: string): string { NormalizeLookup(opts, WithSlash(path)) }

  /** The fast map after the registration of `r`, where `c` is the trie after it. */
  function AddFast(opts: Options, fast: FastMap, c: Trie, r: Route): FastMap {
    match PatternOf(SplitPath(opts, r.path))
    case Pattern(keys) =>
      if HasMarker(r.path) then fast
      else
        var key := FastKey(opts, r.path);
        var inner := if key in fast then fast[key] else map[];
        fast[key := inner[r.method_ := Fast(HandlersAt(c, keys, r.method_), r.path)]]
    case _ => fast
  }

  function BuildFast(opts: Options, routes: seq<Route>): FastMap {
    if routes == [] then map[]
    else AddFast(opts, BuildFast(opts, routes[..|routes| - 1]), Build(opts, routes), routes[|routes| - 1])
  }

  lemma BuildSnoc(opts: Options, routes: seq<Route>, r: Route)
    ensures var all := routes + [r];
            && Build(opts, all) == AddRoute(opts, Build(opts, routes), r)
            && BuildFast(opts, all) == AddFast(opts, BuildFast(opts, routes), Build(opts, all), r)
  {
    assert (routes + [r])[..|routes|] == routes;
  }

  // ----- matching -------------------------------------------------------------------------

  datatype MatchResult = Matched(handlers: seq<Handler>, params: Params, routePath: string) | NoMatch | BadRequest

  /** The entry for the method, or for GET when a HEAD request has none of its own. */
  function ForMethod<T>(entries: map<string, T>, m: string): Option<T> {
    if m in entries then Some(entries[m])
    else if m == "HEAD" && "GET" in entries then Some(entries["GET"])
    else None
  }

  /** The match by the trie alone. */
  function TrieMatch(opts: Options, c: Trie, m: string, pathname: string): MatchResult {
    match Find(c, opts, [], SplitPath(opts, pathname), map[], false)
    case BadEncoding => BadRequest
    case Missing => NoMatch
    case Found(path, params) => Answer(c, path, params, m)
  }

  /** The answer of the node at `path`. */
  function Answer(c: Trie, path: Path, params: Params, m: string): MatchResult {
    if path !in c then NoMatch
    else
      match ForMethod(c[path].handlers, m)
      case None => NoMatch
      case Some(handlers) => Matched(handlers, params, c[path].pattern)
  }

  /** The match that tries the fast map first. */
  function FastMatch(opts: Options, fast: FastMap, c: Trie, m: string, pathname: string): MatchResult {
    var key := NormalizeLookup(opts, pathname);
    var hit := if key in fast then ForMethod(fast[key], m) else None;
    match hit
    case Some(entry) => Matched(entry.handlers, map[], entry.pattern)
    case None => TrieMatch(opts, c, m, pathname)
  }

  /** Methods allowed on a path, in order: those of the node that the lenient search finds. */
  function AllowedMethods(opts: Options, c: Trie, pathname: string): seq<string> {
    match Find(c, opts, [], SplitPath(opts, pathname), map[], true)
    case Found(path, _) => if path in c then c[path].methods else []
    case _ => []
  }
}
