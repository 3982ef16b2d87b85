/** The dependency injection container: provider tables along a chain of parents, caches in the root and per request. */
module Containers {
  import opened Results
  import opened Injection
  import opened Lists

  class Container {
    var providers: map<Token, Provider>
    var singletons: map<Token, Instance>
    var requestCache: map<Token, Instance>
    const parent: Container?
    /** This container and its ancestors; the last of them. */
    ghost const line: set<Container>
    ghost const root: Container
    /** Trace of the constructor and factory calls made so far, kept at the root. */
    var calls: seq<Token>

    ghost predicate Valid()
      decreases line
    {
      && this in line && root in line
      && (match parent
          case null => line == {this} && root == this
          case p => p in line && this !in p.line && line == p.line + {this} && root == p.root && p.Valid())
    }

    constructor (parent: Container?)
      requires parent != null ==> parent.Valid()
      ensures Valid() && this.parent == parent && (parent != null ==> root == parent.root)
      ensures providers == map[] && singletons == map[] && requestCache == map[] && calls == []
    {
      this.parent := parent;
      if parent == null {
        line, root := {this}, this;
      } else {
        line, root := parent.line + {this}, parent.root;
      }
      providers, singletons, requestCache, calls := map[], map[], map[], [];
    }

    /** Own providers hide those of the ancestors. */
    ghost function Effective(): Table
      requires Valid()
      reads line`providers
      decreases line
    {
      if parent == null then providers else parent.Effective() + providers
    }

    ghost function Snapshot(): Store
      reads root`singletons, root`calls, `requestCache
    {
      Store(root.singletons, requestCache, root.calls)
    }

    /** A second provider for a token is an error. */
    method Register(token: Token, provider: Provider) returns (ok: bool)
      modifies `providers
      ensures ok <==> token !in old(providers)
      ensures providers == if ok then old(providers)[token := provider] else old(providers)
    {
      if token in providers { return false; }
      providers := providers[token := provider];
      return true;
    }

    method FindProvider(token: Token) returns (p: Option<Provider>)
      requires Valid()
      ensures p == if token in Effective() then Some(Effective()[token]) else None
      decreases line
    {
      if token in providers { return Some(providers[token]); }
      if parent != null {
        p := parent.FindProvider(token);
        return;
      }
      return None;
    }

    method GetRoot() returns (r: Container)
      requires Valid()
      ensures r == root
    {
      r := this;
      while r.parent != null
        invariant r.Valid() && r.root == root
        decreases r.line
      {
        r := r.parent;
      }
    }

    /** Resolve a token; `seen` is the path to it, `sync` the synchronous copy of the algorithm. */
    method Resolve(token: Token, seen: seq<Token>, sync: bool) returns (r: Result<Instance, Problem>)
      requires Valid()
      modifies root`singletons, root`calls, `requestCache
      ensures Outcome(r, Snapshot()) == Resolved(Effective(), sync, token, seen, old(Snapshot()))
      decreases Effective().Keys - Elements(seen), 1, 0
    {
      hide Instantiated, ResolvedAll, Effective;
      if token in seen { return Err(Circular(seen + [token])); }
      var found := FindProvider(token);
      if found == None { return Err(NoProvider(token)); }
      var here := seen + [token];
      assert token in Effective().Keys - Elements(seen) && token !in Effective().Keys - Elements(here);
      match found.value {
        case Existing(target) =>
          r := Resolve(target, here, sync);
        case Provided(recipe, Singleton) =>
          var top := GetRoot();
          if token in top.singletons { return Ok(top.singletons[token]); }
          r := Instantiate(token, recipe, here, sync);
          if r.Ok? { top.singletons := top.singletons[token := r.value]; }
        case Provided(recipe, Request) =>
          if token in requestCache { return Ok(requestCache[token]); }
          r := Instantiate(token, recipe, here, sync);
          if r.Ok? { requestCache := requestCache[token := r.value]; }
        case Provided(recipe, Transient) =>
          r := Instantiate(token, recipe, here, sync);
      }
    }

    method Instantiate(token: Token, recipe: Recipe, seen: seq<Token>, sync: bool)
      returns (r: Result<Instance, Problem>)
      requires Valid()
      modifies root`singletons, root`calls, `requestCache
      ensures Outcome(r, Snapshot()) == Instantiated(Effective(), sync, token, recipe, seen, old(Snapshot()))
      decreases Effective().Keys - Elements(seen), 3, 0
    {
      match recipe {
        case Value =>
          return Ok(Given(token));
        case Call(deps, isAsync) =>
          var instances := ResolveDeps(deps, seen, sync);
          if instances.Err? { return Err(instances.error); }
          var top := GetRoot();
          var instance := Made(|top.calls|, token);
          top.calls := top.calls + [token];
          if sync && isAsync { return Err(AsyncFactory(token)); }
          return Ok(instance);
      }
    }

    method ResolveDeps(tokens: seq<Token>, seen: seq<Token>, sync: bool) returns (r: Result<seq<Instance>, Problem>)
      requires Valid()
      modifies root`singletons, root`calls, `requestCache
      ensures Outcome(r, Snapshot()) == ResolvedAll(Effective(), sync, tokens, seen, old(Snapshot()))
      decreases Effective().Keys - Elements(seen), 2, 0
    {
      hide Resolved, ResolvedAll, Behind, Effective;
      var out: seq<Instance> := [];
      var i := 0;
      ghost var table := Effective();
      assert tokens[0..] == tokens;
      NothingBehind(ResolvedAll(table, sync, tokens, seen, Snapshot()).result);
      while i < |tokens|
        invariant 0 <= i <= |tokens| && Effective() == table
        invariant ResolvedAll(table, sync, tokens, seen, old(Snapshot()))
                  == OutcomeBehind(out, ResolvedAll(table, sync, tokens[i..], seen, Snapshot()))
      {
        OneMoreToken(table, sync, tokens, i, seen, Snapshot(), out);
        var instance := Resolve(tokens[i], seen, sync);
        if instance.Err? { return Err(instance.error); }
        out := out + [instance.value];
        i := i + 1;
      }
      NoTokens(table, sync, tokens[i..], seen, Snapshot(), out);
      return Ok(out);
    }

    /** `get`, and with `sync` `getSync`. */
    method Get(token: Token, sync: bool) returns (r: Result<Instance, Problem>)
      requires Valid()
      modifies root`singletons, root`calls, `requestCache
      ensures Outcome(r, Snapshot()) == Resolved(Effective(), sync, token, [], old(Snapshot()))
    {
      r := Resolve(token, [], sync);
    }

    method CreateRequestScope() returns (child: Container)
      requires Valid()
      ensures fresh(child) && child.Valid() && child.parent == this && child.root == root
      ensures child.Effective() == Effective() && child.Snapshot() == Snapshot().(request := map[])
    {
      child := new Container(this);
      assert Effective() + map[] == Effective();
    }
  }

  /** The outcome for a list whose first tokens gave `out`. */
  ghost function OutcomeBehind(out: seq<Instance>, o: Outcome<seq<Instance>>): Outcome<seq<Instance>> {
    Outcome(Behind(out, o.result), o.store)
  }

  lemma NoTokens(table: Table, sync: bool, tokens: seq<Token>, seen: seq<Token>, st: Store, out: seq<Instance>)
    requires tokens == []
    ensures OutcomeBehind(out, ResolvedAll(table, sync, tokens, seen, st)) == Outcome(Ok(out), st)
  {
    assert out + [] == out;
  }

  lemma OneMoreToken(table: Table, sync: bool, tokens: seq<Token>, i: nat, seen: seq<Token>, st: Store,
                     out: seq<Instance>)
    requires i < |tokens|
    ensures OutcomeBehind(out, ResolvedAll(table, sync, tokens[i..], seen, st)) ==
            var first := Resolved(table, sync, tokens[i], seen, st);
            match first.result
            case Err(e) => Outcome(Err(e), first.store)
            case Ok(instance) =>
              OutcomeBehind(out + [instance], ResolvedAll(table, sync, tokens[i + 1..], seen, first.store))
  {
    hide Resolved;
    assert tokens[i..][1..] == tokens[i + 1..];
    var first := Resolved(table, sync, tokens[i], seen, st);
    if first.result.Ok? {
      var rest := ResolvedAll(table, sync, tokens[i + 1..], seen, first.store);
      if rest.result.Ok? {
        assert out + ([first.result.value] + rest.result.value) == (out + [first.result.value]) + rest.result.value;
      }
    }
  }
}
