/** Laws of route registration and matching, over every sequence of registrations. */
module RouteLaws {
  import opened Lists
  import opened TrieSpec
  import opened RouteTable

  // ----- shape of the trie ----------------------------------------------------------------

  /** Nodes hang together and wildcards are leaves. */
  ghost predicate Hung(c: Trie) {
    [] in c && forall p, k {:trigger Child(p, k)} :: Child(p, k) in c ==> p in c && !EndsWild(p)
  }

  lemma ChildIsInjective(p: Path, k: Key, q: Path, l: Key)
    requires Child(p, k) == Child(q, l)
    ensures p == q && k == l
  {
    assert Child(p, k)[..|p|] == p && Child(q, l)[..|q|] == q;
    assert Child(p, k)[|p|] == k && Child(q, l)[|q|] == l;
  }

  lemma {:induction false} AddNodesHung(c: Trie, p: Path, segments: seq<string>)
    requires Hung(c) && p in c && !EndsWild(p)
    ensures Hung(AddNodes(c, p, segments))
    decreases |segments|
  {
    if segments == [] || (segments[0] == "*" && |segments| > 1) || segments[0] == ":" {
    } else {
      var k := SegmentKey(segments[0]);
      var q := Child(p, k);
      var d := Ensure(c, q, segments[0]);
      forall r, l {:trigger Child(r, l)} | Child(r, l) in d ensures r in d && !EndsWild(r) {
        if Child(r, l) !in c { ChildIsInjective(p, k, r, l); }
      }
      if segments[0] == "*" {
        assert AddNodes(d, q, segments[1..]) == d;
      } else {
        assert q[|q| - 1] == k;
        AddNodesHung(d, q, segments[1..]);
      }
    }
  }

  /** A new wildcard node is the end of a sound pattern. */
  lemma {:induction false} NewWildIsEnd(c: Trie, p: Path, segments: seq<string>, q: Path)
    requires q in AddNodes(c, p, segments) && q !in c && EndsWild(q)
    ensures PatternOf(segments).Pattern? && q == p + PatternOf(segments).keys
    decreases |segments|
  {
    assert segments != [] && !(segments[0] == "*" && |segments| > 1) && segments[0] != ":";
    var k := SegmentKey(segments[0]);
    var r := Child(p, k);
    var d := Ensure(c, r, segments[0]);
    if q in d {
      assert q == r && q[|q| - 1] == k;
      hide AddNodes;
      WildSegment(segments);
    } else {
      NewWildIsEnd(d, r, segments[1..], q);
      hide AddNodes, Ensure;
      PatternBehind(p, segments);
    }
  }

  lemma WildSegment(segments: seq<string>)
    requires segments != [] && SegmentKey(segments[0]) == Wild && !(segments[0] == "*" && |segments| > 1)
    ensures PatternOf(segments) == Pattern([Wild])
  {
  }

  lemma PatternBehind(p: Path, segments: seq<string>)
    requires segments != [] && !(segments[0] == "*" && |segments| > 1) && segments[0] != ":"
    requires PatternOf(segments[1..]).Pattern?
    ensures PatternOf(segments).Pattern?
    ensures Child(p, SegmentKey(segments[0])) + PatternOf(segments[1..]).keys == p + PatternOf(segments).keys
  {
    var k, more := SegmentKey(segments[0]), PatternOf(segments[1..]).keys;
    if segments[0] == "*" {
      WildSegment(segments);
      assert segments[1..] == [];
      assert PatternOf([]) == Pattern([]);
    } else {
      assert PatternOf(segments) == Pattern([k] + more);
    }
    hide *;
    ChildThen(p, k, more);
  }

  lemma ChildThen(p: Path, k: Key, more: Path)
    ensures Child(p, k) + more == p + ([k] + more) && [k] + [] == [k]
  {
  }

  lemma AddRouteWellFormed(opts: Options, c: Trie, r: Route)
    requires WellFormed(c)
    ensures WellFormed(AddRoute(opts, c, r))
  {
    var segments := SplitPath(opts, r.path);
    var grown := AddNodes(c, [], segments);
    var after := AddRoute(opts, c, r);
    AddNodesHung(c, [], segments);
    AddNodesKeeps(c, [], segments);
    if PatternOf(segments).Pattern? {
      AddNodesReaches(c, [], segments);
      assert [] + PatternOf(segments).keys == PatternOf(segments).keys;
    }
    forall p | p in after && EndsWild(p) ensures after[p].handlers != map[] {
      if p !in c {
        NewWildIsEnd(c, [], segments, p);
        assert r.method_ in after[p].handlers;
      } else if PatternOf(segments) == Pattern(p) {
        assert r.method_ in after[p].handlers;
      }
    }
  }

  /** Every sequence of registrations builds a well-formed trie. */
  lemma {:induction false} BuildWellFormed(opts: Options, routes: seq<Route>)
    ensures WellFormed(Build(opts, routes))
  {
    if routes != [] {
      BuildWellFormed(opts, routes[..|routes| - 1]);
      AddRouteWellFormed(opts, Build(opts, routes[..|routes| - 1]), routes[|routes| - 1]);
    } else {
      forall p, k {:trigger Child(p, k)} ensures Child(p, k) !in EMPTY_TRIE { assert |Child(p, k)| > 0; }
    }
  }

  // ----- what is registered ---------------------------------------------------------------

  /** The registration `r` is for the pattern `p`. */
  predicate IsFor(opts: Options, r: Route, p: Path) { PatternOf(SplitPath(opts, r.path)) == Pattern(p) }

  /** The handlers of all registrations for `p` and `m`, in order. */
  function HandlersOf(opts: Options, routes: seq<Route>, p: Path, m: string): seq<Handler> {
    if routes == [] then []
    else
      var last := routes[|routes| - 1];
      HandlersOf(opts, routes[..|routes| - 1], p, m)
      + if IsFor(opts, last, p) && last.method_ == m then last.handlers else []
  }

  lemma AddRouteHandlers(opts: Options, c: Trie, r: Route, p: Path, m: string)
    requires [] in c
    ensures var d := AddRoute(opts, c, r);
            && HandlersAt(d, p, m) == HandlersAt(c, p, m) + (if IsFor(opts, r, p) && r.method_ == m then r.handlers
                                                             else [])
            && ((p in d && m in d[p].handlers) <==>
                  (p in c && m in c[p].handlers) || (IsFor(opts, r, p) && r.method_ == m))
            && (p in c ==> p in d && d[p].paramName == c[p].paramName)
  {
    hide SplitPath, AddNodes;
    var segments := SplitPath(opts, r.path);
    AddNodesKeeps(c, [], segments);
    var grown := AddNodes(c, [], segments);
    assert HandlersAt(grown, p, m) == HandlersAt(c, p, m);
    assert HandlersAt(c, p, m) + [] == HandlersAt(c, p, m);
    if PatternOf(segments).Pattern? {
      AddNodesReaches(c, [], segments);
      assert [] + PatternOf(segments).keys == PatternOf(segments).keys;
    }
  }

  /** A pattern holds for a method exactly the handlers registered for both, in the order of registration. */
  lemma {:induction false} BuildHandlers(opts: Options, routes: seq<Route>, p: Path, m: string)
    ensures var c := Build(opts, routes);
            && HandlersAt(c, p, m) == HandlersOf(opts, routes, p, m)
            && ((p in c && m in c[p].handlers) <==>
                  exists i | 0 <= i < |routes| :: IsFor(opts, routes[i], p) && routes[i].method_ == m)
  {
    if routes != [] {
      var init := routes[..|routes| - 1];
      BuildHandlers(opts, init, p, m);
      AddRouteHandlers(opts, Build(opts, init), routes[|routes| - 1], p, m);
      if i :| 0 <= i < |routes| && IsFor(opts, routes[i], p) && routes[i].method_ == m && i < |routes| - 1 {
        assert init[i] == routes[i];
      }
      if i :| 0 <= i < |init| && IsFor(opts, init[i], p) && init[i].method_ == m { assert init[i] == routes[i]; }
    }
  }

  lemma {:induction false} HandlersOfMore(opts: Options, routes: seq<Route>, late: seq<Route>, p: Path, m: string)
    ensures HandlersOf(opts, routes + late, p, m) == HandlersOf(opts, routes, p, m) + HandlersOf(opts, late, p, m)
    decreases |late|
  {
    hide IsFor;
    if late == [] {
      assert routes + late == routes;
    } else {
      var init := late[..|late| - 1];
      assert (routes + late)[..|routes + late| - 1] == routes + init;
      HandlersOfMore(opts, routes, init, p, m);
    }
  }

  lemma AppendedNothing<T>(x: seq<T>, y: seq<T>)
    ensures x == x + y <==> y == []
    ensures x == [] ==> x + y == y
  {
  }

  /** The list of methods of every node names those that have handlers, each once. */
  ghost predicate MethodsListed(c: Trie) { forall p | p in c :: ListsMethods(c[p]) }

  ghost predicate ListsMethods(info: Info) {
    Listed(info.methods, info.handlers)
  }

  lemma {:induction false} BuildListsMethods(opts: Options, routes: seq<Route>)
    ensures MethodsListed(Build(opts, routes))
  {
    if routes != [] {
      BuildListsMethods(opts, routes[..|routes| - 1]);
      AddRouteListsMethods(opts, Build(opts, routes[..|routes| - 1]), routes[|routes| - 1]);
    }
  }

  lemma AddRouteListsMethods(opts: Options, c: Trie, r: Route)
    requires [] in c && MethodsListed(c)
    ensures MethodsListed(AddRoute(opts, c, r))
  {
    hide SplitPath;
    var segments := SplitPath(opts, r.path);
    AddNodesListMethods(c, [], segments);
    if PatternOf(segments).Pattern? {
      AddNodesReaches(c, [], segments);
      assert [] + PatternOf(segments).keys == PatternOf(segments).keys;
    }
  }

  lemma {:induction false} AddNodesListMethods(c: Trie, p: Path, segments: seq<string>)
    requires MethodsListed(c)
    ensures MethodsListed(AddNodes(c, p, segments))
    decreases |segments|
  {
    if segments == [] || (segments[0] == "*" && |segments| > 1) || segments[0] == ":" {
    } else {
      var q := Child(p, SegmentKey(segments[0]));
      AddNodesListMethods(Ensure(c, q, segments[0]), q, segments[1..]);
    }
  }

  /** The registered patterns are those of the sound registrations. */
  lemma RegisteredPatterns(opts: Options, routes: seq<Route>, p: Path)
    ensures Registered(Build(opts, routes), p) <==> exists i | 0 <= i < |routes| :: IsFor(opts, routes[i], p)
  {
    var c := Build(opts, routes);
    if Registered(c, p) {
      var m :| m in c[p].handlers;
      BuildHandlers(opts, routes, p, m);
    }
    if i :| 0 <= i < |routes| && IsFor(opts, routes[i], p) {
      BuildHandlers(opts, routes, p, routes[i].method_);
    }
  }

  /** A node keeps the name it got first. */
  lemma {:induction false} FirstNameWins(opts: Options, routes: seq<Route>, k: nat, p: Path)
    requires k <= |routes| && p in Build(opts, routes[..k])
    ensures p in Build(opts, routes) && Build(opts, routes)[p].paramName == Build(opts, routes[..k])[p].paramName
  {
    if k == |routes| {
      assert routes[..k] == routes;
    } else {
      var init := routes[..|routes| - 1];
      assert init[..k] == routes[..k];
      FirstNameWins(opts, init, k, p);
      AddRouteHandlers(opts, Build(opts, init), routes[|routes| - 1], p, "");
    }
  }

  // ----- what a path finds ----------------------------------------------------------------

  /** A registered pattern that matches the segments. */
  ghost predicate Answers(opts: Options, routes: seq<Route>, segments: seq<string>, p: Path) {
    (exists i | 0 <= i < |routes| :: IsFor(opts, routes[i], p)) && Matches(opts, p, segments)
  }

  /**
   After any sequence of registrations and for every decodable path, the search finds the registered pattern
   that precedes all other matching ones, with exactly its bindings, and finds none exactly when none matches.
   */
  lemma SearchFindsBest(opts: Options, routes: seq<Route>, segments: seq<string>, lenient: bool)
    requires Decodable(opts, segments)
    ensures var c := Build(opts, routes);
            match Find(c, opts, [], segments, map[], lenient)
            case BadEncoding => false
            case Missing => forall p :: !Answers(opts, routes, segments, p)
            case Found(best, params) =>
              && Answers(opts, routes, segments, best)
              && params == Bindings(c, opts, [], best, segments, map[])
              && forall p | Answers(opts, routes, segments, p) && p != best :: Precedes(best, p)
  {
    hide Find, Bindings, Build;
    var c := Build(opts, routes);
    BuildWellFormed(opts, routes);
    FindIsBest(c, opts, [], segments, map[], lenient);
    forall p ensures Candidate(c, opts, [], segments, p) <==> Answers(opts, routes, segments, p) {
      assert [] + p == p;
      RegisteredPatterns(opts, routes, p);
    }
    var r := Find(c, opts, [], segments, map[], lenient);
    if r.Found? {
      var best :| r.path == [] + best && Candidate(c, opts, [], segments, best)
        && r.params == Bindings(c, opts, [], best, segments, map[])
        && forall keys | Candidate(c, opts, [], segments, keys) && keys != best :: Precedes(best, keys);
      assert [] + best == best;
    }
  }

  /** The order is strict, so the best pattern is unique. */
  lemma {:induction false} PrecedesIsStrict(a: Path, b: Path)
    requires Precedes(a, b)
    ensures !Precedes(b, a) && a != b
  {
    if a != [] && b != [] && a[0] == b[0] {
      PrecedesIsStrict(a[1..], b[1..]);
    }
  }

  /** Any two different patterns that match the same path are ordered. */
  lemma {:induction false} MatchingIsOrdered(opts: Options, a: Path, b: Path, segments: seq<string>)
    requires Matches(opts, a, segments) && Matches(opts, b, segments) && a != b
    ensures Precedes(a, b) || Precedes(b, a)
  {
    if a != [] && b != [] && a[0] == b[0] && a[0] != Wild {
      MatchingIsOrdered(opts, a[1..], b[1..], segments[1..]);
    }
  }

  // ----- allowed methods ------------------------------------------------------------------

  /** On decodable segments the lenient search is the search. */
  lemma {:induction false} LenientIsStrict(c: Trie, opts: Options, p: Path, segments: seq<string>, params: Params)
    requires Decodable(opts, segments)
    ensures Find(c, opts, p, segments, params, true) == Find(c, opts, p, segments, params, false)
    decreases |segments|
  {
    if segments != [] {
      DecodableRemainder(opts, segments);
      assert segments[0] in segments;
      var rest := segments[1..];
      forall s | s in rest ensures Decoded(opts, s).Some? { assert s in segments; }
      LenientIsStrict(c, opts, Child(p, Lit(segments[0])), rest, params);
      var d := Decoded(opts, segments[0]).value;
      LenientIsStrict(c, opts, Child(p, Par), rest, params[NameAt(c, Child(p, Par)) := Given(d)]);
    }
  }

  /** A request on a decodable path is matched exactly when its method is among the allowed ones of that path,
      or it is a HEAD request and GET is. */
  lemma AllowedMethodsDecide(opts: Options, routes: seq<Route>, m: string, pathname: string)
    requires Decodable(opts, SplitPath(opts, pathname))
    ensures var c := Build(opts, routes);
            var allowed := AllowedMethods(opts, c, pathname);
            TrieMatch(opts, c, m, pathname).Matched? <==> m in allowed || (m == "HEAD" && "GET" in allowed)
  {
    hide Find, SplitPath, Build;
    BuildListsMethods(opts, routes);
    LenientIsStrict(Build(opts, routes), opts, [], SplitPath(opts, pathname), map[]);
  }
}
