/** The router object: linked trie nodes that registrations mutate and a search that undoes its bindings. */
module Router {
  import opened Text
  import opened TrieSpec
  import opened RouteTable
  import opened RouteLaws
  import opened FastLaws
  import opened ParamObjects
  import opened Results

  class Node {
    var children: map<string, Node>
    var paramChild: Node?
    var wildcardChild: Node?
    var paramName: string
    var handlers: map<string, seq<Handler>>
    var pattern: string
    /** The keys of `handlers` in order of insertion. */
    var methods: seq<string>

    constructor (name: string)
      ensures View() == EmptyView(name)
    {
      children, paramChild, wildcardChild := map[], null, null;
      paramName, handlers, pattern, methods := name, map[], "", [];
    }

    method Link(k: Key, child: Node)
      modifies this`children, this`paramChild, this`wildcardChild
      ensures View() == WithChild(old(View()), k, child)
    {
      match k {
        case Lit(s) => children := children[s := child];
        case Par => paramChild := child;
        case Wild => wildcardChild := child;
      }
    }

    method Append(m: string, more: seq<Handler>, pattern: string)
      modifies this`handlers, this`pattern, this`methods
      ensures var h := old(handlers);
              View() == old(View()).(info := Info(old(paramName), h[m := (if m in h then h[m] else []) + more], pattern,
                                                  if m in h then old(methods) else old(methods) + [m]))
    {
      if m in handlers {
        handlers := handlers[m := handlers[m] + more];
      } else {
        assert [] + more == more;
        handlers := handlers[m := more];
        methods := methods + [m];
      }
      this.pattern := pattern;
    }

    /** All fields of the node as a value. */
    ghost function View(): NodeView reads this {
      NodeView(children, paramChild, wildcardChild, Info(paramName, handlers, pattern, methods))
    }
  }

  datatype NodeView = NodeView(children: map<string, Node>, paramChild: Node?, wildcardChild: Node?, info: Info)

  ghost function EmptyView(name: string): NodeView { NodeView(map[], null, null, NewInfo(name)) }

  /** The nodes of a trie by the keys that lead to them, and what their fields hold. */
  type Nodes = map<Path, Node>
  type Views = map<Path, NodeView>

  /** The links of the node at `p` lead to its children and nowhere else. */
  ghost predicate LinkedAt(tree: Nodes, v: NodeView, p: Path) {
    && (forall s :: s in v.children <==> Child(p, Lit(s)) in tree)
    && (forall s | s in v.children :: v.children[s] == tree[Child(p, Lit(s))])
    && (v.paramChild != null <==> Child(p, Par) in tree)
    && (v.paramChild != null ==> v.paramChild == tree[Child(p, Par)])
    && (v.wildcardChild != null <==> Child(p, Wild) in tree)
    && (v.wildcardChild != null ==> v.wildcardChild == tree[Child(p, Wild)])
  }

  ghost predicate Linked(tree: Nodes, views: Views) {
    && tree.Keys == views.Keys && [] in tree
    && (forall p, q | p in tree && q in tree && tree[p] == tree[q] :: p == q)
    && (forall p, k {:trigger Child(p, k)} :: Child(p, k) in tree ==> p in tree)
    && (forall p | p in tree :: LinkedAt(tree, views[p], p))
  }

  /** The fields of a node with a new child for the key `k`. */
  ghost function WithChild(v: NodeView, k: Key, child: Node): NodeView {
    match k
    case Lit(s) => v.(children := v.children[s := child])
    case Par => v.(paramChild := child)
    case Wild => v.(wildcardChild := child)
  }

  /** The links of another node do not change when `p` grows a child. */
  lemma OtherLinks(tree: Nodes, v: NodeView, q: Path, p: Path, k: Key, child: Node)
    requires LinkedAt(tree, v, q) && q != p && Child(p, k) !in tree
    ensures LinkedAt(tree[Child(p, k) := child], v, q)
  {
    forall l ensures Child(q, l) != Child(p, k) {
      if Child(q, l) == Child(p, k) { ChildIsInjective(q, l, p, k); }
    }
    hide Child;
  }

  lemma ParentLinks(tree: Nodes, v: NodeView, p: Path, k: Key, child: Node)
    requires LinkedAt(tree, v, p) && Child(p, k) !in tree
    ensures LinkedAt(tree[Child(p, k) := child], WithChild(v, k, child), p)
  {
    forall l ensures Child(p, l) == Child(p, k) ==> l == k {
      if Child(p, l) == Child(p, k) { ChildIsInjective(p, l, p, k); }
    }
    hide Child;
  }

  lemma NewLinks(tree: Nodes, p: Path, k: Key, child: Node, name: string)
    requires Child(p, k) !in tree
    requires forall l :: Child(Child(p, k), l) !in tree
    ensures LinkedAt(tree[Child(p, k) := child], EmptyView(name), Child(p, k))
  {
    forall l ensures Child(Child(p, k), l) != Child(p, k) {
      assert |Child(Child(p, k), l)| != |Child(p, k)|;
    }
    hide Child;
  }

  lemma GrowLinked(tree: Nodes, views: Views, p: Path, k: Key, child: Node, name: string)
    requires Linked(tree, views) && p in tree && Child(p, k) !in tree && forall q | q in tree :: tree[q] != child
    ensures var c := Child(p, k);
            c != [] && Linked(tree[c := child], views[p := WithChild(views[p], k, child)][c := EmptyView(name)])
  {
    hide LinkedAt;
    var c := Child(p, k);
    var tree' := tree[c := child];
    var views' := views[p := WithChild(views[p], k, child)][c := EmptyView(name)];
    forall q, l {:trigger Child(q, l)} | Child(q, l) in tree' ensures q in tree' {
      if Child(q, l) !in tree { ChildIsInjective(q, l, p, k); }
    }
    forall q | q in tree' ensures LinkedAt(tree', views'[q], q) {
      if q == c {
        NewLinks(tree, p, k, child, name);
      } else if q == p {
        ParentLinks(tree, views[p], p, k, child);
      } else {
        OtherLinks(tree, views[q], q, p, k, child);
      }
    }
  }

  class Router {
    const opts: Options
    const root: Node
    var routes: seq<Route>
    var fastStatic: FastMap
    ghost var tree: Nodes
    /** All nodes of the tree. */
    ghost var nodes: set<Node>

    ghost predicate Owned()
      reads this`tree, this`nodes
    {
      forall p | p in tree :: tree[p] in nodes
    }

    ghost function GetViews(): Views
      requires Owned()
      reads this`tree, this`nodes, nodes
    {
      map p | p in tree :: tree[p].View()
    }

    /** `node` is the node at `p` of a sound tree. */
    ghost predicate Stands(node: Node, p: Path)
      ensures Stands(node, p) ==> Owned() && node in nodes
      reads this`tree, this`nodes, nodes
    {
      Connected() && p in tree && tree[p] == node
    }

    ghost predicate Connected()
      reads this`tree, this`nodes, nodes
    {
      Owned() && Linked(tree, GetViews()) && tree[[]] == root
    }

    /** The trie as a value. */
    ghost function Content(): Trie
      requires Owned()
      reads this`tree, this`nodes, nodes
    {
      InfoOf(GetViews())
    }

    /** The router holds what its registrations build. */
    ghost predicate Valid()
      reads this, nodes
    {
      Connected() && Content() == Build(opts, routes) && fastStatic == BuildFast(opts, routes)
    }

    constructor (opts: Options)
      ensures Valid() && this.opts == opts && routes == [] && fresh(nodes)
    {
      this.opts := opts;
      var n := new Node("");
      root := n;
      routes, fastStatic := [], map[];
      tree, nodes := map[[] := n], {n};
      new;
      hide Linked, Build, BuildFast, InfoOf;
      RootLinked(n);
      NoRoutes(opts);
      assert GetViews() == map[[] := EmptyView("")];
    }

    lemma RootNode()
      requires Connected()
      ensures Owned() && [] in tree && tree[[]] == root && root in nodes
      ensures [] in Content() && Content().Keys == tree.Keys
    {
    }

    lemma RootStands()
      requires Connected()
      ensures Owned() && Stands(root, [])
    {
    }

    lemma NodeLinks(p: Path)
      requires Connected() && p in tree
      ensures LinkedAt(tree, tree[p].View(), p)
      ensures Content().Keys == tree.Keys && Content()[p] == tree[p].View().info
    {
      assert GetViews()[p] == tree[p].View();
    }

    /** A new child of `node` for the key `k`. */
    method Grow(node: Node, ghost p: Path, k: Key, name: string) returns (child: Node)
      requires Stands(node, p) && Child(p, k) !in Content()
      modifies this`tree, this`nodes, node`children, node`paramChild, node`wildcardChild
      ensures Stands(child, Child(p, k)) && fresh(child) && nodes == old(nodes) + {child}
      ensures Content() == old(Content())[Child(p, k) := NewInfo(name)]
    {
      RootNode();
      hide Linked, WithChild, Child, InfoOf;
      ghost var before, views := tree, GetViews();
      Injective(tree, views, p);
      child := GrowNode(node, p, k, name);
      SameViews(GetViews(), views, p, WithChild(views[p], k, child), Child(p, k), EmptyView(name));
      GrowLinked(before, views, p, k, child, name);
      GrowInfo(views, p, k, child, name);
      assert Connected();
    }

    /** The fields after the new child is linked. */
    method GrowNode(node: Node, ghost p: Path, k: Key, name: string) returns (child: Node)
      requires p in tree && tree[p] == node && Child(p, k) !in tree
      requires Owned() && forall q | q in tree && tree[q] == node :: q == p
      modifies this`tree, this`nodes, node`children, node`paramChild, node`wildcardChild
      ensures fresh(child) && tree == old(tree)[Child(p, k) := child] && nodes == old(nodes) + {child} && Owned()
      ensures forall q | q in old(tree) && q != p :: tree[q].View() == old(tree[q].View())
      ensures node.View() == WithChild(old(node.View()), k, child) && child.View() == EmptyView(name)
    {
      hide WithChild, Child;
      child := new Node(name);
      node.Link(k, child);
      tree, nodes := tree[Child(p, k) := child], nodes + {child};
    }

    /** The child of `node` for a segment of a pattern, created when missing. */
    method Step(node: Node, ghost p: Path, segment: string) returns (child: Node, ghost made: set<Node>)
      requires Stands(node, p)
      modifies this`tree, this`nodes, node`children, node`paramChild, node`wildcardChild
      ensures nodes == old(nodes) + made && fresh(made)
      ensures var q := Child(p, SegmentKey(segment));
              Stands(child, q) && Content() == Ensure(old(Content()), q, segment)
    {
      hide Connected, Content, Child, Stands, SegmentKey, SegmentName;
      var existing := ChildFor(node, p, segment);
      if existing != null {
        return existing, {};
      }
      child := Grow(node, p, SegmentKey(segment), SegmentName(segment));
      made := {child};
    }

    /** The child of `node` for a segment of a pattern, if there is one. */
    method ChildFor(node: Node, ghost p: Path, segment: string) returns (existing: Node?)
      requires Stands(node, p)
      ensures existing != null <==> Child(p, SegmentKey(segment)) in Content()
      ensures existing != null ==> Stands(existing, Child(p, SegmentKey(segment)))
    {
      LitLink(node, p, segment);
      ParLink(node, p);
      WildLink(node, p);
      hide Connected, Content, Child, Linked, Stands;
      if segment == "*" { return node.wildcardChild; }
      if segment != "" && segment[0] == ':' { return node.paramChild; }
      return if segment in node.children then node.children[segment] else null;
    }

    /** Append the handlers of a registration to a node. */
    method Attach(node: Node, ghost p: Path, m: string, handlers: seq<Handler>, pattern: string)
      requires Connected() && p in tree && tree[p] == node
      modifies node`handlers, node`pattern, node`methods
      ensures Connected() && Content() == SetHandlers(old(Content()), p, m, handlers, pattern)
      ensures Owned() && m in node.handlers && node.handlers[m] == HandlersAt(Content(), p, m)
    {
      ghost var views := GetViews();
      Injective(tree, views, p);
      NodeLinks(p);
      hide Linked, InfoOf;
      node.Append(m, handlers, pattern);
      forall q | q in views && q != p ensures tree[q].View() == views[q] { assert tree[q] != node; }
      ReplacedView(GetViews(), views, p, node.View());
      InfoLinked(tree, views, p, node.View().info);
      InfoReplaced(views, p, node.View().info);
    }

    /** Register handlers for a method and a path pattern. */
    method Add(method_: string, path: string, handlers: seq<Handler>) returns (r: AddResult)
      requires Valid()
      modifies this`routes, this`fastStatic, this`tree, this`nodes, nodes
      ensures Valid() && fresh(nodes - old(nodes))
      ensures routes == old(routes) + [Route(Upper(method_), path, handlers)]
      ensures r == match PatternOf(SplitPath(opts, path))
                   case Pattern(_) => Added
                   case InnerWildcard => WildcardNotLast
                   case NamelessParam => InvalidParam
    {
      hide SplitPath, Build, BuildFast, AddFast, AddRoute, Connected, Content, AddNodes, FastKey, Upper, PatternOf;
      var m := Upper(method_);
      var route := Route(m, path, handlers);
      RootNode();
      ghost var before := Content();
      routes := routes + [route];
      BuildSnoc(opts, old(routes), route);
      var segments := SplitPath(opts, path);
      var node;
      ghost var p, made;
      r, node, p, made := Walk(segments);
      if r != Added {
        DefectIsRoute(opts, before, route);
        return;
      }
      Attach(node, p, m, handlers, path);
      AttachedIsRoute(opts, before, route, p);
      if !HasMarker(path) {
        var key := FastKey(opts, path);
        var inner := if key in fastStatic then fastStatic[key] else map[];
        var merged := node.handlers[m];
        fastStatic := fastStatic[key := inner[m := Fast(merged, path)]];
      }
      RootNode();
      FastIsAdded(opts, old(fastStatic), Content(), route, p);
    }

    /** The loop of `Add`: down the trie along the pattern, creating what is missing. */
    method Walk(segments: seq<string>) returns (r: AddResult, node: Node, ghost p: Path, ghost made: set<Node>)
      requires Connected()
      modifies this`tree, this`nodes, nodes
      ensures Stands(node, p) && nodes == old(nodes) + made && fresh(made)
      ensures Content() == AddNodes(old(Content()), [], segments)
      ensures Told(r, segments, p)
    {
      hide *;
      RootStands();
      ghost var before, values := Content(), nodes;
      node, p, made := root, [], {};
      var i := 0;
      ProgressStarts(before, segments);
      while i < |segments|
        invariant 0 <= i <= |segments| && Stands(node, p)
        invariant Progress(before, segments, i, Content(), p)
        invariant nodes == values + made && fresh(made)
      {
        var child;
        ghost var more;
        r, child, more := Advance(segments, i, node, before, p);
        made := made + more;
        node := child;
        if r != Added { return r, node, p, made; }
        p := Child(p, SegmentKey(segments[i]));
        i := i + 1;
      }
      ProgressEnds(before, segments, Content(), p);
      return Added, node, p, made;
    }

    /** One round of the loop in `Add`. */
    method Advance(segments: seq<string>, i: nat, node: Node, ghost before: Trie, ghost p: Path)
      returns (r: AddResult, child: Node, ghost made: set<Node>)
      requires Stands(node, p) && i < |segments|
      requires Progress(before, segments, i, Content(), p)
      modifies this`tree, this`nodes, node`children, node`paramChild, node`wildcardChild
      ensures nodes == old(nodes) + made && fresh(made)
      ensures Stands(child, if r == Added then Child(p, SegmentKey(segments[i])) else p)
      ensures match r
              case Added => Progress(before, segments, i + 1, Content(), Child(p, SegmentKey(segments[i])))
              case _ => Content() == AddNodes(before, [], segments) && Told(r, segments, p)
    {
      hide Connected, Content, Progress, Stands, Child, SegmentKey, Ensure, PatternOf, AddNodes;
      var seg := segments[i];
      if seg == "*" && i != |segments| - 1 {
        ProgressStops(before, segments, i, Content(), p);
        return WildcardNotLast, node, {};
      }
      if seg == ":" {
        ProgressStops(before, segments, i, Content(), p);
        return InvalidParam, node, {};
      }
      ProgressGoesOn(before, segments, i, Content(), p);
      child, made := Step(node, p, seg);
      r := Added;
    }

    // ----- matching -----------------------------------------------------------------------

    lemma LitLink(node: Node, p: Path, s: string)
      requires Stands(node, p)
      ensures p in Content() && node.handlers == Content()[p].handlers && node.pattern == Content()[p].pattern
      ensures node.methods == Content()[p].methods
      ensures s in node.children <==> Child(p, Lit(s)) in Content()
      ensures s in node.children ==> Stands(node.children[s], Child(p, Lit(s)))
    {
      NodeLinks(p);
    }

    lemma ParLink(node: Node, p: Path)
      requires Stands(node, p)
      ensures node.paramChild != null <==> Child(p, Par) in Content()
      ensures node.paramChild != null ==>
                && Stands(node.paramChild, Child(p, Par))
                && node.paramChild.paramName == Content()[Child(p, Par)].paramName
    {
      NodeLinks(p);
      if node.paramChild != null { NodeLinks(Child(p, Par)); }
    }

    lemma WildLink(node: Node, p: Path)
      requires Stands(node, p)
      ensures node.wildcardChild != null <==> Child(p, Wild) in Content()
      ensures node.wildcardChild != null ==>
                && Stands(node.wildcardChild, Child(p, Wild))
                && node.wildcardChild.handlers == Content()[Child(p, Wild)].handlers
    {
      NodeLinks(p);
      if node.wildcardChild != null { NodeLinks(Child(p, Wild)); }
    }

    /** A search returns the node that the specified walk finds, and leaves its bindings. */
    ghost predicate Searched(r: NodeResult, spec: Walked, after: Params)
      reads this`tree, this`nodes, nodes
    {
      match r
      case Hit(n) => spec.outcome.At? && Stands(n, spec.outcome.path) && spec.params == after
      case Miss => spec == Walked(Nowhere, after)
      case Bad => spec.outcome.Undecodable?
    }

    /**
     Depth-first search for the path below `node`. The bindings are threaded through: `bound` comes in, and what
     the search has made of it goes out. `lenient` is the variant that collects allowed methods.
     */
    method MatchNode(node: Node, segments: seq<string>, idx: nat, bound: Params, lenient: bool, ghost p: Path)
      returns (r: NodeResult, params: Params)
      requires Stands(node, p) && WellFormed(Content()) && idx <= |segments|
      ensures Searched(r, WalkNode(Content(), opts, p, segments[idx..], bound, lenient), params)
      decreases |segments| - idx, 2
    {
      hide Connected, Content, WellFormed, Stands, WalkParam, Child;
      params := bound;
      if idx == |segments| {
        LitLink(node, p, "");
        WildLink(node, p);
        if node.handlers != map[] { return Hit(node), params; }
        if node.wildcardChild != null {
          if node.wildcardChild.handlers != map[] {
            params := params["wildcard" := Given("")];
            return Hit(node.wildcardChild), params;
          }
        }
        return Miss, params;
      }
      var seg := segments[idx];
      LitLink(node, p, seg);
      assert segments[idx..][0] == seg && segments[idx..][1..] == segments[idx + 1..];
      if seg in node.children {
        r, params := MatchNode(node.children[seg], segments, idx + 1, params, lenient, Child(p, Lit(seg)));
        if !r.Miss? { return; }
      }
      r, params := MatchParam(node, segments, idx, params, lenient, p);
    }

    /** The param child: bind the segment, search on, and undo the binding after a miss. */
    method MatchParam(node: Node, segments: seq<string>, idx: nat, bound: Params, lenient: bool, ghost p: Path)
      returns (r: NodeResult, params: Params)
      requires Stands(node, p) && WellFormed(Content()) && idx < |segments|
      ensures Searched(r, WalkParam(Content(), opts, p, segments[idx..], bound, lenient), params)
      decreases |segments| - idx, 1
    {
      hide Connected, Content, WellFormed, Stands, WalkNode, WalkWild, Child, Decoded, Read, Write, Undo;
      params := bound;
      ParLink(node, p);
      var seg := segments[idx];
      assert segments[idx..][0] == seg && segments[idx..][1..] == segments[idx + 1..];
      if node.paramChild != null {
        var decoded := Decoded(opts, seg);
        if decoded.None? { return if lenient then Miss else Bad, params; }
        if |decoded.value| <= opts.paramLength {
          var name := node.paramChild.paramName;
          var prev := Read(params, name);
          params := Write(params, name, Given(decoded.value));
          r, params := MatchNode(node.paramChild, segments, idx + 1, params, lenient, Child(p, Par));
          if !r.Miss? { return; }
          params := Undo(params, name, prev);
        }
      }
      r, params := MatchWildcard(node, segments, idx, params, lenient, p);
    }

    /** The wildcard child takes the remainder. */
    method MatchWildcard(node: Node, segments: seq<string>, idx: nat, bound: Params, lenient: bool, ghost p: Path)
      returns (r: NodeResult, params: Params)
      requires Stands(node, p) && WellFormed(Content()) && idx < |segments|
      ensures Searched(r, WalkWild(Content(), opts, p, segments[idx..], bound, lenient), params)
      decreases |segments| - idx, 0
    {
      WildLink(node, p);
      params := bound;
      if node.wildcardChild != null {
        assert EndsWild(Child(p, Wild));
        var remainder := DecodeRemainder(segments, idx);
        if remainder.None? { return if lenient then Miss else Bad, params; }
        params := params["wildcard" := Given(remainder.value)];
        if node.wildcardChild.handlers != map[] { return Hit(node.wildcardChild), params; }
        assert false;
      }
      return Miss, params;
    }

    /** Join the rest of the path, decoding only when some segment needs it. */
    method DecodeRemainder(segments: seq<string>, idx: nat) returns (r: Option<string>)
      requires idx <= |segments|
      ensures r == Remainder(opts, segments[idx..])
    {
      var encoded := false;
      var i := idx;
      while i < |segments|
        invariant idx <= i <= |segments|
        invariant !encoded
        invariant forall k | idx <= k < i :: '%' !in segments[k]
      {
        if '%' in segments[i] {
          encoded := true;
          break;
        }
        i := i + 1;
      }
      var tail := segments[idx..];
      if !encoded {
        PlainSegments(opts, tail);
        return Some(Join(tail, '/'));
      }
      return Remainder(opts, tail);
    }

    /** The handlers, params and pattern for a request. */
    method Match(method_: string, pathname: string) returns (r: MatchResult)
      requires Valid()
      ensures r == CodeMatch(opts, fastStatic, Content(), Upper(method_), pathname)
      ensures (forall i | 0 <= i < |routes| :: CleanPath(routes[i].path)) && SafeNames(Content()) ==>
                SameMatch(r, TrieMatch(opts, Build(opts, routes), Upper(method_), pathname))
    {
      hide WalkNode, Find, Build, BuildFast, SplitPath, NormalizeLookup, Upper, Content, SafeNames, WellFormed;
      var m := Upper(method_);
      BuildWellFormed(opts, routes);
      CodeMatchTargets(opts, fastStatic, Content(), m, pathname);
      if forall i | 0 <= i < |routes| :: CleanPath(routes[i].path) {
        FastMatchAgrees(opts, routes, m, pathname);
      }
      var key := NormalizeLookup(opts, pathname);
      if key in fastStatic {
        var entry := ForMethod(fastStatic[key], m);
        if entry.Some? { return Matched(entry.value.handlers, map[], entry.value.pattern); }
      }
      r := MatchInTrie(m, pathname);
    }

    method MatchInTrie(m: string, pathname: string) returns (r: MatchResult)
      requires Valid()
      ensures r == WalkMatch(opts, Content(), m, pathname)
    {
      hide WalkNode, Build, BuildFast, SplitPath;
      BuildWellFormed(opts, routes);
      RootNode();
      assert Stands(root, []);
      var segments := SplitPath(opts, pathname);
      assert segments[0..] == segments;
      var found, params := MatchNode(root, segments, 0, map[], false, []);
      ghost var spec := WalkNode(Content(), opts, [], segments, map[], false);
      match found {
        case Bad => return BadRequest;
        case Miss => return NoMatch;
        case Hit(n) =>
          LitLink(n, spec.outcome.path, "");
          var handlers := ForMethod(n.handlers, m);
          if handlers.None? { return NoMatch; }
          return Matched(handlers.value, params, n.pattern);
      }
    }

    /** The methods registered for the pattern that a path finds. */
    method GetAllowedMethods(pathname: string) returns (r: seq<string>)
      requires Valid()
      ensures r == AllowedMethods(opts, Content(), pathname)
    {
      hide WalkNode, Find, Build, BuildFast, SplitPath, AllowedMethods;
      BuildWellFormed(opts, routes);
      RootNode();
      assert Stands(root, []);
      var segments := SplitPath(opts, pathname);
      assert segments[0..] == segments;
      AllowedAreFound(opts, Content(), pathname);
      var found, params := MatchNode(root, segments, 0, map[], true, []);
      ghost var spec := WalkNode(Content(), opts, [], segments, map[], true);
      match found {
        case Hit(n) =>
          LitLink(n, spec.outcome.path, "");
          return n.methods;
        case _ => return [];
      }
    }
  }

  datatype NodeResult = Hit(node: Node) | Miss | Bad

  datatype AddResult = Added | WildcardNotLast | InvalidParam

  lemma ReplacedView(after: Views, before: Views, p: Path, v: NodeView)
    requires p in before && after.Keys == before.Keys && after[p] == v
    requires forall q | q in before && q != p :: after[q] == before[q]
    ensures after == before[p := v]
  {
  }

  lemma InfoReplaced(views: Views, p: Path, info: Info)
    requires p in views
    ensures InfoOf(views[p := views[p].(info := info)]) == InfoOf(views)[p := info]
  {
  }

  /** Links do not depend on handlers. */
  lemma InfoLinked(tree: Nodes, views: Views, p: Path, info: Info)
    requires Linked(tree, views) && p in tree
    ensures Linked(tree, views[p := views[p].(info := info)])
  {
    var views' := views[p := views[p].(info := info)];
    forall q | q in tree ensures LinkedAt(tree, views'[q], q) { assert LinkedAt(tree, views[q], q); }
  }

  /** The pattern of segments that follow the keys `p`. */
  function PatternBelow(p: Path, segments: seq<string>): Pattern {
    match PatternOf(segments)
    case Pattern(keys) => Pattern(p + keys)
    case defect => defect
  }

  /** The walk along `segments` has come to the node `p` after `i` of them and has made the trie `c`. */
  ghost predicate Progress(before: Trie, segments: seq<string>, i: nat, c: Trie, p: Path) {
    && i <= |segments|
    && AddNodes(c, p, segments[i..]) == AddNodes(before, [], segments)
    && PatternOf(segments) == PatternBelow(p, segments[i..])
  }

  lemma ProgressStarts(before: Trie, segments: seq<string>)
    ensures Progress(before, segments, 0, before, [])
  {
    assert segments[0..] == segments;
    if PatternOf(segments).Pattern? { assert [] + PatternOf(segments).keys == PatternOf(segments).keys; }
  }

  /** The outcome of a registration says what the pattern is: `p`, or the defect. */
  ghost predicate Told(r: AddResult, segments: seq<string>, p: Path) {
    match r
    case Added => PatternOf(segments) == Pattern(p)
    case WildcardNotLast => PatternOf(segments) == InnerWildcard
    case InvalidParam => PatternOf(segments) == NamelessParam
  }

  lemma ProgressEnds(before: Trie, segments: seq<string>, c: Trie, p: Path)
    requires Progress(before, segments, |segments|, c, p)
    ensures Told(Added, segments, p) && AddNodes(before, [], segments) == c
  {
    assert segments[|segments|..] == [];
    assert p + [] == p;
  }

  lemma ProgressStops(before: Trie, segments: seq<string>, i: nat, c: Trie, p: Path)
    requires Progress(before, segments, i, c, p) && i < |segments|
    requires segments[i] == ":" || (segments[i] == "*" && i + 1 < |segments|)
    ensures AddNodes(before, [], segments) == c
    ensures PatternOf(segments) == if segments[i] == "*" then InnerWildcard else NamelessParam
  {
    assert segments[i..][0] == segments[i];
  }

  lemma ProgressGoesOn(before: Trie, segments: seq<string>, i: nat, c: Trie, p: Path)
    requires Progress(before, segments, i, c, p) && i < |segments|
    requires segments[i] != ":" && (segments[i] == "*" ==> i + 1 == |segments|)
    ensures var q := Child(p, SegmentKey(segments[i]));
            Progress(before, segments, i + 1, Ensure(c, q, segments[i]), q)
  {
    var rest := segments[i..];
    assert rest[0] == segments[i] && rest[1..] == segments[i + 1..];
    PatternStep(p, rest);
  }

  lemma PatternStep(p: Path, segments: seq<string>)
    requires segments != [] && segments[0] != ":" && (segments[0] == "*" ==> |segments| == 1)
    ensures PatternBelow(Child(p, SegmentKey(segments[0])), segments[1..]) == PatternBelow(p, segments)
  {
    var k := SegmentKey(segments[0]);
    var rest := PatternOf(segments[1..]);
    if rest.Pattern? { assert Child(p, k) + rest.keys == p + ([k] + rest.keys); }
    if segments[0] == "*" { assert rest == Pattern([]) && [Wild] + [] == [Wild]; }
  }

  lemma RootLinked(n: Node)
    ensures Linked(map[[] := n], map[[] := EmptyView("")])
    ensures InfoOf(map[[] := EmptyView("")]) == EMPTY_TRIE
  {
    RootLinks(n);
    forall p, k {:trigger Child(p, k)} ensures Child(p, k) != [] { assert |Child(p, k)| > 0; }
    hide Child, LinkedAt, EmptyView;
    assert Linked(map[[] := n], map[[] := EmptyView("")]);
    RootInfo();
  }

  lemma RootInfo()
    ensures InfoOf(map[[] := EmptyView("")]) == EMPTY_TRIE
  {
  }

  lemma RootLinks(n: Node)
    ensures LinkedAt(map[[] := n], EmptyView(""), [])
  {
    forall k ensures Child([], k) != [] { assert |Child([], k)| > 0; }
    hide Child;
  }

  lemma NoRoutes(opts: Options)
    ensures Build(opts, []) == EMPTY_TRIE && BuildFast(opts, []) == map[]
  {
  }

  lemma AttachedIsRoute(opts: Options, c: Trie, r: Route, p: Path)
    requires [] in c && IsFor(opts, r, p)
    ensures var grown := AddNodes(c, [], SplitPath(opts, r.path));
            p in grown && AddRoute(opts, c, r) == SetHandlers(grown, p, r.method_, r.handlers, r.path)
  {
    hide SplitPath;
    AddNodesReaches(c, [], SplitPath(opts, r.path));
    assert [] + p == p;
  }

  lemma DefectIsRoute(opts: Options, c: Trie, r: Route)
    requires [] in c && !PatternOf(SplitPath(opts, r.path)).Pattern?
    ensures AddRoute(opts, c, r) == AddNodes(c, [], SplitPath(opts, r.path))
    ensures forall fast, d :: AddFast(opts, fast, d, r) == fast
  {
    hide SplitPath;
  }

  lemma FastIsAdded(opts: Options, fast: FastMap, c: Trie, r: Route, p: Path)
    requires IsFor(opts, r, p)
    ensures AddFast(opts, fast, c, r) ==
            if HasMarker(r.path) then fast
            else
              var key := FastKey(opts, r.path);
              var inner := if key in fast then fast[key] else map[];
              fast[key := inner[r.method_ := Fast(HandlersAt(c, p, r.method_), r.path)]]
  {
    hide SplitPath;
  }

  lemma SameViews(after: Views, before: Views, p: Path, v: NodeView, c: Path, w: NodeView)
    requires p in before && c !in before
    requires after.Keys == before.Keys + {c} && after[p] == v && after[c] == w
    requires forall q | q in before && q != p :: after[q] == before[q]
    ensures after == before[p := v][c := w]
  {
  }

  lemma GrowInfo(views: Views, p: Path, k: Key, child: Node, name: string)
    requires p in views && Child(p, k) !in views
    ensures InfoOf(views[p := WithChild(views[p], k, child)][Child(p, k) := EmptyView(name)])
            == InfoOf(views)[Child(p, k) := NewInfo(name)]
  {
  }

  ghost function InfoOf(views: Views): Trie { map p | p in views :: views[p].info }

  lemma Injective(tree: Nodes, views: Views, p: Path)
    requires Linked(tree, views) && p in tree
    ensures forall q | q in tree && tree[q] == tree[p] :: q == p
  {
  }
}
