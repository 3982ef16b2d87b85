/** Laws of resolution: cycles are reported exactly, and singletons are made once. */
module InjectionLaws {
  import opened Results
  import opened Walks
  import opened Injection
  import opened Lists

  // ----- what a resolution leaves alone ---------------------------------------------------

  ghost predicate Grown(a: Store, b: Store) {
    && a.singletons.Keys <= b.singletons.Keys && (forall t | t in a.singletons :: b.singletons[t] == a.singletons[t])
    && a.request.Keys <= b.request.Keys && (forall t | t in a.request :: b.request[t] == a.request[t])
    && a.calls <= b.calls
  }

  /** Caches and calls only grow, and nothing happens to the tokens of the path. */
  ghost predicate Frame(seen: seq<Token>, a: Store, b: Store) {
    && Grown(a, b)
    && forall t | t in seen ::
         && (t in b.singletons ==> t in a.singletons) && (t in b.request ==> t in a.request)
         && t !in b.calls[|a.calls|..]
  }

  lemma FrameTwice(seen: seq<Token>, a: Store, b: Store, c: Store)
    requires Frame(seen, a, b) && Frame(seen, b, c)
    ensures Frame(seen, a, c)
  {
    assert c.calls[|a.calls|..] == b.calls[|a.calls|..] + c.calls[|b.calls|..];
  }

  lemma {:induction false} ResolveFrames(table: Table, sync: bool, token: Token, seen: seq<Token>, st: Store)
    ensures Frame(seen, st, Resolved(table, sync, token, seen, st).store)
    decreases table.Keys - Elements(seen), 1, 0
  {
    assert st.calls[|st.calls|..] == [];
    if token !in seen && token in table {
      assert token in table.Keys - Elements(seen) && token !in table.Keys - Elements(seen + [token]);
      var here := seen + [token];
      match table[token] {
        case Existing(target) =>
          ResolveFrames(table, sync, target, here, st);
          ShorterPath(seen, token, st, Resolved(table, sync, target, here, st).store);
        case Provided(recipe, scope) =>
          if !Cached(st, token, scope) {
            var made := Instantiated(table, sync, token, recipe, here, st);
            if recipe.Call? {
              ResolveAllFrames(table, sync, recipe.deps, here, st);
              var all := ResolvedAll(table, sync, recipe.deps, here, st);
              ShorterPath(seen, token, st, all.store);
              OneCall(seen, token, st, all.store);
            }
            KeepFrames(seen, token, scope, st, made.store);
          }
      }
    }
  }

  lemma ShorterPath(seen: seq<Token>, token: Token, a: Store, b: Store)
    requires Frame(seen + [token], a, b)
    ensures Frame(seen, a, b) && (token in b.singletons ==> token in a.singletons)
    ensures token in b.request ==> token in a.request
  {
    assert token in seen + [token];
  }

  lemma OneCall(seen: seq<Token>, token: Token, a: Store, b: Store)
    requires Frame(seen, a, b) && token !in seen
    ensures Frame(seen, a, b.(calls := b.calls + [token]))
  {
    assert (b.calls + [token])[|a.calls|..] == b.calls[|a.calls|..] + [token];
  }

  lemma KeepFrames(seen: seq<Token>, token: Token, scope: Scope, a: Store, b: Store)
    requires Frame(seen, a, b) && token !in seen && !Cached(b, token, scope)
    ensures forall i :: Frame(seen, a, Kept(b, token, scope, i))
  {
  }

  lemma {:induction false} ResolveAllFrames(table: Table, sync: bool, tokens: seq<Token>, seen: seq<Token>, st: Store)
    ensures Frame(seen, st, ResolvedAll(table, sync, tokens, seen, st).store)
    decreases table.Keys - Elements(seen), 2, |tokens|
  {
    assert st.calls[|st.calls|..] == [];
    if tokens != [] {
      ResolveFrames(table, sync, tokens[0], seen, st);
      var first := Resolved(table, sync, tokens[0], seen, st);
      if first.result.Ok? {
        ResolveAllFrames(table, sync, tokens[1..], seen, first.store);
        FrameTwice(seen, st, first.store, ResolvedAll(table, sync, tokens[1..], seen, first.store).store);
      }
    }
  }

  // ----- cycles ---------------------------------------------------------------------------

  /** Tokens cached since `a` are on no cycle of what was to resolve then. */
  ghost predicate NewIsAcyclic(table: Table, a: Store, b: Store) {
    && Grown(a, b)
    && forall t | t in table && table[t].Provided? && Cached(b, t, table[t].scope) && !Cached(a, t, table[t].scope) ::
         !Cyclic(Next(table, a), t)
  }

  /** What an error says of the graph `next`; `from` is where the path begins. */
  ghost predicate Explains(table: Table, sync: bool, next: Token -> seq<Token>, from: Token, e: Problem) {
    match e
    case Circular(chain) => Walk(next, chain) && chain[0] == from && Closes(chain)
    case NoProvider(t) => t !in table && Reaches(next, from, t)
    case AsyncFactory(t) => sync && t in table && table[t].Provided? && table[t].recipe.Call? && table[t].recipe.isAsync
  }

  /** A resolution that succeeds has seen no cycle, whatever it found in the caches on its way; one that fails
      tells why. `a` is the store at the start. */
  lemma {:induction false} ResolveFindsCycles(table: Table, sync: bool, token: Token, seen: seq<Token>, a: Store,
                                              st: Store)
    requires Walk(Next(table, a), seen + [token]) && NewIsAcyclic(table, a, st)
    ensures var o := Resolved(table, sync, token, seen, st);
            && (o.result.Ok? ==> !Cyclic(Next(table, a), token) && ReachesNone(Next(table, a), token, seen)
                                 && NewIsAcyclic(table, a, o.store))
            && (o.result.Err? ==> Explains(table, sync, Next(table, a), (seen + [token])[0], o.result.error))
    decreases table.Keys - Elements(seen), 1, 0
  {
    var next, here := Next(table, a), seen + [token];
    assert here[|here| - 1] == token && here[..|here| - 1] == seen;
    if token !in seen && token in table {
      assert token in table.Keys - Elements(seen) && token !in table.Keys - Elements(here);
      match table[token] {
        case Existing(target) =>
          WalkOn(next, here, target);
          ResolveFindsCycles(table, sync, target, here, a, st);
          if Resolved(table, sync, target, here, st).result.Ok? { Expand(next, seen, token); }
        case Provided(recipe, scope) =>
          if Cached(st, token, scope) {
            if Cached(a, token, scope) { Expand(next, seen, token); } else { NoWayBack(next, seen, token); }
          } else {
            InstantiateFindsCycles(table, sync, token, seen, a, st);
          }
      }
    } else if token !in seen {
      assert Reaches(next, here[0], token);
    }
  }

  lemma {:induction false} InstantiateFindsCycles(table: Table, sync: bool, token: Token, seen: seq<Token>, a: Store,
                                                  st: Store)
    requires Walk(Next(table, a), seen + [token]) && NewIsAcyclic(table, a, st)
    requires token !in seen && token in table && table[token].Provided? && !Cached(st, token, table[token].scope)
    ensures var o := Resolved(table, sync, token, seen, st);
            && (o.result.Ok? ==> !Cyclic(Next(table, a), token) && ReachesNone(Next(table, a), token, seen)
                                 && NewIsAcyclic(table, a, o.store))
            && (o.result.Err? ==> Explains(table, sync, Next(table, a), (seen + [token])[0], o.result.error))
    decreases table.Keys - Elements(seen), 0, 0
  {
    var next, here := Next(table, a), seen + [token];
    var Provided(recipe, scope) := table[token];
    assert token in table.Keys - Elements(seen) && token !in table.Keys - Elements(here);
    match recipe {
      case Value =>
        Expand(next, seen, token);
        KeepIsAcyclic(table, token, a, st);
      case Call(deps, isAsync) =>
        forall d | d in deps ensures Walk(next, here + [d]) { WalkOn(next, here, d); }
        AllFindCycles(table, sync, deps, here, a, st);
        var all := ResolvedAll(table, sync, deps, here, st);
        if all.result.Ok? {
          Expand(next, seen, token);
          ResolveAllFrames(table, sync, deps, here, st);
          KeepIsAcyclic(table, token, a, all.store.(calls := all.store.calls + [token]));
        }
    }
  }

  lemma KeepIsAcyclic(table: Table, token: Token, a: Store, st: Store)
    requires NewIsAcyclic(table, a, st) && token in table && table[token].Provided?
    requires !Cyclic(Next(table, a), token) && !Cached(a, token, table[token].scope)
    ensures forall i :: NewIsAcyclic(table, a, Kept(st, token, table[token].scope, i))
  {
  }

  lemma {:induction false} AllFindCycles(table: Table, sync: bool, tokens: seq<Token>, seen: seq<Token>, a: Store,
                                         st: Store)
    requires seen != [] && (forall t | t in tokens :: Walk(Next(table, a), seen + [t])) && NewIsAcyclic(table, a, st)
    ensures var o := ResolvedAll(table, sync, tokens, seen, st);
            && (o.result.Ok? ==> NewIsAcyclic(table, a, o.store) && forall t | t in tokens ::
                  !Cyclic(Next(table, a), t) && ReachesNone(Next(table, a), t, seen))
            && (o.result.Err? ==> Explains(table, sync, Next(table, a), seen[0], o.result.error))
    decreases table.Keys - Elements(seen), 2, |tokens|
  {
    if tokens != [] {
      ResolveFindsCycles(table, sync, tokens[0], seen, a, st);
      var first := Resolved(table, sync, tokens[0], seen, st);
      if first.result.Ok? { AllFindCycles(table, sync, tokens[1..], seen, a, first.store); }
    }
  }

  /** Every token that the resolution can come to has a provider. */
  ghost predicate Complete(table: Table, st: Store, token: Token) {
    forall t | Reaches(Next(table, st), token, t) :: t in table
  }

  predicate HasAsync(p: Provider) { p.Provided? && p.recipe.Call? && p.recipe.isAsync }

  ghost predicate AllSync(table: Table) { forall t | t in table :: !HasAsync(table[t]) }

  /** With all providers present, resolution fails exactly when a cycle of tokens that are not cached can be
      reached; then it reports a circular dependency. A diamond is no cycle. */
  lemma CyclesAreReported(table: Table, sync: bool, token: Token, st: Store)
    requires Complete(table, st, token) && (sync ==> AllSync(table))
    ensures var r := Resolved(table, sync, token, [], st).result;
            && (r.Err? <==> Cyclic(Next(table, st), token))
            && (r.Err? ==> r.error.Circular? && Closes(r.error.chain) && Walk(Next(table, st), r.error.chain))
  {
    assert Walk(Next(table, st), [] + [token]);
    ResolveFindsCycles(table, sync, token, [], st, st);
  }

  // ----- singletons -----------------------------------------------------------------------

  /** `t` was made at most once, and is kept when it was. */
  ghost predicate Once(t: Token, st: Store) {
    multiset(st.calls)[t] <= 1 && (t in st.calls ==> t in st.singletons)
  }

  /** Where `t` has a provider of its own, that is a singleton. */
  ghost predicate IsSingleton(table: Table, t: Token) {
    t in table && table[t].Provided? ==> table[t].scope == Singleton
  }

  /** A resolution that is not refused for the promise of `t` itself. */
  ghost predicate NotRefused<T>(o: Outcome<T>, t: Token) { o.result != Err(AsyncFactory(t)) }

  lemma {:induction false} ResolveOnce(table: Table, sync: bool, token: Token, seen: seq<Token>, st: Store, t: Token)
    requires Once(t, st) && IsSingleton(table, t) && NotRefused(Resolved(table, sync, token, seen, st), t)
    ensures Once(t, Resolved(table, sync, token, seen, st).store)
    decreases table.Keys - Elements(seen), 1, 0
  {
    if token !in seen && token in table {
      assert token in table.Keys - Elements(seen) && token !in table.Keys - Elements(seen + [token]);
      var here := seen + [token];
      match table[token] {
        case Existing(target) => ResolveOnce(table, sync, target, here, st, t);
        case Provided(recipe, scope) =>
          if !Cached(st, token, scope) && recipe.Call? {
            AllOnce(table, sync, recipe.deps, here, st, t);
            ResolveAllFrames(table, sync, recipe.deps, here, st);
            assert token in here;
            hide Once, Frame, ResolvedAll;
            CalledOnce(here, token, scope, st, ResolvedAll(table, sync, recipe.deps, here, st).store, t);
          } else {
            OnceIsKept(token, scope, st, t);
          }
      }
    }
  }

  lemma OnceIsKept(token: Token, scope: Scope, st: Store, t: Token)
    requires Once(t, st)
    ensures forall i :: Once(t, Kept(st, token, scope, i))
  {
  }

  /** A call for `token`, after its dependencies, that is kept. */
  lemma CalledOnce(here: seq<Token>, token: Token, scope: Scope, a: Store, b: Store, t: Token)
    requires Frame(here, a, b) && token in here && Once(t, a) && Once(t, b) && !Cached(a, token, scope)
    requires token == t ==> scope == Singleton
    ensures forall i :: Once(t, Kept(b.(calls := b.calls + [token]), token, scope, i))
    ensures token != t ==> Once(t, b.(calls := b.calls + [token]))
  {
    assert b.calls == a.calls + b.calls[|a.calls|..];
    CallsOnce(b.calls, token, t);
    hide Grown;
  }

  lemma CallsOnce(calls: seq<Token>, token: Token, t: Token)
    ensures multiset(calls + [token])[t] == multiset(calls)[t] + (if t == token then 1 else 0)
    ensures t in calls <==> multiset(calls)[t] > 0
    ensures t in calls + [token] <==> t in calls || t == token
  {
  }

  lemma {:induction false} AllOnce(table: Table, sync: bool, tokens: seq<Token>, seen: seq<Token>, st: Store, t: Token)
    requires Once(t, st) && IsSingleton(table, t) && NotRefused(ResolvedAll(table, sync, tokens, seen, st), t)
    ensures Once(t, ResolvedAll(table, sync, tokens, seen, st).store)
    decreases table.Keys - Elements(seen), 2, |tokens|
  {
    if tokens != [] {
      ResolveOnce(table, sync, tokens[0], seen, st, t);
      var first := Resolved(table, sync, tokens[0], seen, st);
      if first.result.Ok? { AllOnce(table, sync, tokens[1..], seen, first.store, t); }
    }
  }

  lemma ResolvedIsKept(table: Table, sync: bool, t: Token, st: Store)
    requires t in table && table[t].Provided? && table[t].scope == Singleton
    ensures var o := Resolved(table, sync, t, [], st);
            o.result.Ok? ==> t in o.store.singletons && o.store.singletons[t] == o.result.value
  {
  }

  // ----- runs -----------------------------------------------------------------------------

  /** The caches of the root and of all request containers. */
  datatype World = World(singletons: map<Token, Instance>, requests: map<nat, map<Token, Instance>>, calls: seq<Token>)

  /** A call of `get` or `getSync` on a container, whose own and inherited providers make `table`. */
  datatype Get = Get(container: nat, table: Table, token: Token, sync: bool)

  function StoreOf(w: World, container: nat): Store {
    Store(w.singletons, if container in w.requests then w.requests[container] else map[], w.calls)
  }

  function WorldAfter(w: World, container: nat, st: Store): World {
    World(st.singletons, w.requests[container := st.request], st.calls)
  }

  datatype Run = Run(results: seq<Result<Instance, Problem>>, world: World)

  ghost function Gets(w: World, gets: seq<Get>): (r: Run)
    ensures |r.results| == |gets|
    decreases |gets|
  {
    if gets == [] then Run([], w)
    else
      var o := Resolved(gets[0].table, gets[0].sync, gets[0].token, [], StoreOf(w, gets[0].container));
      var rest := Gets(WorldAfter(w, gets[0].container, o.store), gets[1..]);
      Run([o.result] + rest.results, rest.world)
  }

  /** Over a run on any containers in which no get is refused for the promise of `t`, the singleton `t` is made at most
      once. */
  lemma {:induction false} RunMakesOnce(w: World, gets: seq<Get>, t: Token)
    requires Once(t, StoreOf(w, 0)) && forall i | 0 <= i < |gets| :: IsSingleton(gets[i].table, t)
    requires forall i | 0 <= i < |gets| :: Gets(w, gets).results[i] != Err(AsyncFactory(t))
    ensures Once(t, StoreOf(Gets(w, gets).world, 0))
    decreases |gets|
  {
    if gets != [] {
      var st := StoreOf(w, gets[0].container);
      var o := Resolved(gets[0].table, gets[0].sync, gets[0].token, [], st);
      assert Gets(w, gets).results[0] == o.result;
      ResolveOnce(gets[0].table, gets[0].sync, gets[0].token, [], st, t);
      var after := WorldAfter(w, gets[0].container, o.store);
      forall i | 0 <= i < |gets[1..]|
        ensures IsSingleton(gets[1..][i].table, t) && Gets(after, gets[1..]).results[i] != Err(AsyncFactory(t))
      {
        assert gets[1..][i] == gets[i + 1] && Gets(after, gets[1..]).results[i] == Gets(w, gets).results[i + 1];
      }
      RunMakesOnce(after, gets[1..], t);
    }
  }

  // ----- what resolved once resolves again ------------------------------------------------

  /** What a resolution of the token resolves anew each time: the target of an alias, the dependencies of a transient
      call. */
  function AnewOf(table: Table, token: Token): seq<Token> {
    if token !in table then []
    else
      match table[token]
      case Existing(target) => [target]
      case Provided(Call(deps, _), Transient) => deps
      case _ => []
  }

  function Anew(table: Table): Token -> seq<Token> { t => AnewOf(table, t) }

  /** Along such steps a transient token with an asynchronous factory is met. */
  ghost predicate MeetsPromise(table: Table, token: Token) {
    exists x :: Reaches(Anew(table), token, x) && x in table && HasAsync(table[x]) && table[x].scope == Transient
  }

  lemma AnewStep(table: Table, token: Token, d: Token)
    requires d in AnewOf(table, token)
    ensures forall x | Reaches(Anew(table), d, x) :: Reaches(Anew(table), token, x)
    ensures MeetsPromise(table, d) ==> MeetsPromise(table, token)
  {
    hide AnewOf;
    ReachesOn(Anew(table), token, d);
  }

  /** The tokens of the path are on the earlier one, or are not resolved anew. */
  ghost predicate Avoids(table: Table, token: Token, seen: seq<Token>, path: seq<Token>) {
    forall x | x in path :: x in seen || !Reaches(Anew(table), token, x)
  }

  lemma AvoidsOn(table: Table, token: Token, d: Token, seen: seq<Token>, path: seq<Token>)
    requires Avoids(table, token, seen, path) && d in AnewOf(table, token)
    ensures Avoids(table, d, seen + [token], path + [token])
  {
    hide AnewOf;
    AnewStep(table, token, d);
  }

  /** What has been resolved is resolved again with more in the caches, on a path that it avoids; and synchronously, if
      it was resolved so before or meets no promise. */
  lemma {:induction false} ResolvedAgain(table: Table, before: bool, sync: bool, token: Token, seen: seq<Token>,
                                         path: seq<Token>, st: Store, later: Store)
    requires var o := Resolved(table, before, token, seen, st); o.result.Ok? && Grown(o.store, later)
    requires Avoids(table, token, seen, path) && (sync ==> before || !MeetsPromise(table, token))
    ensures Resolved(table, sync, token, path, later).result.Ok?
    decreases table.Keys - Elements(seen), 1, 0
  {
    hide MeetsPromise, Avoids;
    assert token in table.Keys - Elements(seen) && token !in table.Keys - Elements(seen + [token]);
    assert token !in path by { NotOnPath(table, token, seen, path); }
    match table[token] {
      case Existing(target) =>
        AvoidsOn(table, token, target, seen, path);
        AnewStep(table, token, target);
        ResolvedAgain(table, before, sync, target, seen + [token], path + [token], st, later);
      case Provided(recipe, scope) =>
        if !Cached(later, token, scope) && recipe.Call? {
          assert scope == Transient;
          if sync && !before { MeetsItself(table, token); }
          forall d | d in recipe.deps
            ensures Avoids(table, d, seen + [token], path + [token])
            ensures MeetsPromise(table, d) ==> MeetsPromise(table, token)
          {
            AvoidsOn(table, token, d, seen, path);
            AnewStep(table, token, d);
          }
          AllAgain(table, before, sync, recipe.deps, seen + [token], path + [token], st, later);
        }
    }
  }

  lemma NotOnPath(table: Table, token: Token, seen: seq<Token>, path: seq<Token>)
    requires Avoids(table, token, seen, path) && token !in seen
    ensures token !in path
  {
    ReachesItself(Anew(table), token);
  }

  lemma MeetsItself(table: Table, token: Token)
    requires !MeetsPromise(table, token) && token in table && table[token].Provided? && table[token].scope == Transient
    ensures !HasAsync(table[token])
  {
    ReachesItself(Anew(table), token);
  }

  lemma {:induction false} AllAgain(table: Table, before: bool, sync: bool, tokens: seq<Token>, seen: seq<Token>,
                                    path: seq<Token>, st: Store, later: Store)
    requires var o := ResolvedAll(table, before, tokens, seen, st); o.result.Ok? && Grown(o.store, later)
    requires forall d | d in tokens :: Avoids(table, d, seen, path) && (sync ==> before || !MeetsPromise(table, d))
    ensures ResolvedAll(table, sync, tokens, path, later).result.Ok?
    decreases table.Keys - Elements(seen), 2, |tokens|
  {
    hide MeetsPromise, Avoids;
    if tokens != [] {
      var first := Resolved(table, before, tokens[0], seen, st);
      ResolveAllFrames(table, before, tokens[1..], seen, first.store);
      ResolvedAgain(table, before, sync, tokens[0], seen, path, st, later);
      ResolveFrames(table, sync, tokens[0], path, later);
      AllAgain(table, before, sync, tokens[1..], seen, path, first.store,
               Resolved(table, sync, tokens[0], path, later).store);
    }
  }

  // ----- promises asked for synchronously -------------------------------------------------

  /** After a refusal for the promise of `t`: its factory was the last call, its dependencies are there, and a
      singleton is not kept. */
  ghost predicate Refused(table: Table, t: Token, st: Store) {
    && t in table && HasAsync(table[t]) && st.calls != [] && st.calls[|st.calls| - 1] == t
    && ResolvedAll(table, true, table[t].recipe.deps, [t], st).result.Ok?
    && (table[t].scope == Singleton ==> t !in st.singletons)
  }

  lemma {:induction false} RefusedIs(table: Table, sync: bool, token: Token, seen: seq<Token>, st: Store, t: Token)
    requires !NotRefused(Resolved(table, sync, token, seen, st), t)
    ensures sync && Refused(table, t, Resolved(table, sync, token, seen, st).store)
    decreases table.Keys - Elements(seen), 1, 0
  {
    assert token in table.Keys - Elements(seen) && token !in table.Keys - Elements(seen + [token]);
    var here := seen + [token];
    match table[token] {
      case Existing(target) => RefusedIs(table, sync, target, here, st, t);
      case Provided(recipe, scope) =>
        var all := ResolvedAll(table, sync, recipe.deps, here, st);
        if all.result.Err? {
          AllRefusedIs(table, sync, recipe.deps, here, st, t);
        } else {
          RefusedHere(table, token, seen, st);
        }
    }
  }

  lemma {:induction false} AllRefusedIs(table: Table, sync: bool, tokens: seq<Token>, seen: seq<Token>, st: Store,
                                        t: Token)
    requires !NotRefused(ResolvedAll(table, sync, tokens, seen, st), t)
    ensures sync && Refused(table, t, ResolvedAll(table, sync, tokens, seen, st).store)
    decreases table.Keys - Elements(seen), 2, |tokens|
  {
    var first := Resolved(table, sync, tokens[0], seen, st);
    if first.result.Err? {
      RefusedIs(table, sync, tokens[0], seen, st, t);
    } else {
      AllRefusedIs(table, sync, tokens[1..], seen, first.store, t);
    }
  }

  lemma RefusedHere(table: Table, t: Token, seen: seq<Token>, st: Store)
    requires t in table && HasAsync(table[t]) && !Cached(st, t, table[t].scope)
    requires ResolvedAll(table, true, table[t].recipe.deps, seen + [t], st).result.Ok?
    ensures var b := ResolvedAll(table, true, table[t].recipe.deps, seen + [t], st).store;
            Refused(table, t, b.(calls := b.calls + [t]))
  {
    var deps := table[t].recipe.deps;
    var b := ResolvedAll(table, true, deps, seen + [t], st).store;
    assert t in seen + [t];
    ResolveAllFrames(table, true, deps, seen + [t], st);
    AllAgain(table, true, true, deps, seen + [t], [t], st, b.(calls := b.calls + [t]));
  }

  /** A singleton with an asynchronous factory whose dependencies resolve: `getSync` calls the factory, keeps nothing,
      and would do so again. */
  lemma GetSyncRepeatsTheFactory(table: Table, t: Token, deps: seq<Token>, st: Store)
    requires t in table && table[t] == Provided(Call(deps, true), Singleton) && t !in st.singletons
    requires ResolvedAll(table, true, deps, [t], st).result.Ok?
    ensures var o := Resolved(table, true, t, [], st);
            && o.result == Err(AsyncFactory(t)) && t !in o.store.singletons
            && o.store.calls == ResolvedAll(table, true, deps, [t], st).store.calls + [t]
            && ResolvedAll(table, true, deps, [t], o.store).result.Ok?
  {
    assert [] + [t] == [t];
    RefusedHere(table, t, [], st);
  }

  /** A run that ends in a refusal for the promise of `t` goes on to call its factory again. */
  lemma {:induction false} RefusalRepeats(w: World, gets: seq<Get>, t: Token, i: nat)
    requires i < |gets| && Gets(w, gets).results[i] == Err(AsyncFactory(t)) && IsSingleton(gets[i].table, t)
    ensures var again := Get(gets[i].container, gets[i].table, t, true);
            multiset(Gets(w, gets[..i + 1] + [again]).world.calls)[t] >= 2
    decreases |gets|
  {
    var g := gets[0];
    var st := StoreOf(w, g.container);
    var o := Resolved(g.table, g.sync, g.token, [], st);
    var after := WorldAfter(w, g.container, o.store);
    var again := Get(gets[i].container, gets[i].table, t, true);
    if i == 0 {
      assert gets[..1] + [again] == [g, again];
      RefusalRepeatsAtOnce(w, g, t);
    } else {
      assert Gets(after, gets[1..]).results[i - 1] == Gets(w, gets).results[i] && gets[1..][i - 1] == gets[i];
      RefusalRepeats(after, gets[1..], t, i - 1);
      assert (gets[..i + 1] + [again])[1..] == gets[1..][..i] + [again];
    }
  }

  lemma RefusalRepeatsAtOnce(w: World, g: Get, t: Token)
    requires Resolved(g.table, g.sync, g.token, [], StoreOf(w, g.container)).result == Err(AsyncFactory(t))
    requires IsSingleton(g.table, t)
    ensures multiset(Gets(w, [g, Get(g.container, g.table, t, true)]).world.calls)[t] >= 2
  {
    hide IsSingleton, Refused, Resolved;
    var st := StoreOf(w, g.container);
    var o := Resolved(g.table, g.sync, g.token, [], st);
    var after := WorldAfter(w, g.container, o.store);
    var again := Get(g.container, g.table, t, true);
    RefusedIs(g.table, g.sync, g.token, [], st, t);
    RefusedTwice(g.table, t, o.store);
    GetsOne(after, again);
    assert [g, again][1..] == [again];
    assert StoreOf(after, g.container) == o.store;
  }

  lemma GetsOne(w: World, g: Get)
    ensures Gets(w, [g]).world
            == WorldAfter(w, g.container, Resolved(g.table, g.sync, g.token, [], StoreOf(w, g.container)).store)
  {
    assert [g][1..] == [];
  }

  lemma RefusedTwice(table: Table, t: Token, st: Store)
    requires Refused(table, t, st) && IsSingleton(table, t)
    ensures multiset(Resolved(table, true, t, [], st).store.calls)[t] >= 2
  {
    var deps := table[t].recipe.deps;
    GetSyncRepeatsTheFactory(table, t, deps, st);
    ResolveAllFrames(table, true, deps, [t], st);
    var calls := ResolvedAll(table, true, deps, [t], st).store.calls;
    assert st.calls <= calls && calls[|st.calls| - 1] == t;
    assert multiset(calls + [t]) == multiset(calls) + multiset{t};
  }

  /** The containers before the first get. */
  const NOTHING_MADE := World(map[], map[], [])

  /** A run whose containers have provider tables of this family. */
  ghost predicate On(gets: seq<Get>, tables: iset<Table>) { forall i | 0 <= i < |gets| :: gets[i].table in tables }

  /** Some run comes to the factory of `t` by a synchronous get, which refuses its promise. */
  ghost predicate CanBeRefused(tables: iset<Table>, t: Token) {
    exists gets: seq<Get>, i: nat :: On(gets, tables) && i < |gets|
      && Gets(NOTHING_MADE, gets).results[i] == Err(AsyncFactory(t))
  }

  /**
   A token that is a singleton in every table of a family is made at most once, over all runs of `get` and `getSync` on
   any containers, if and only if no synchronous get of any run comes to its asynchronous factory.
   */
  lemma MadeOnceUnlessRefused(tables: iset<Table>, t: Token)
    requires forall table | table in tables :: IsSingleton(table, t)
    ensures (forall gets | On(gets, tables) :: multiset(Gets(NOTHING_MADE, gets).world.calls)[t] <= 1)
            <==> !CanBeRefused(tables, t)
  {
    hide IsSingleton, Gets;
    if CanBeRefused(tables, t) {
      var gets: seq<Get>, i: nat :| On(gets, tables) && i < |gets|
        && Gets(NOTHING_MADE, gets).results[i] == Err(AsyncFactory(t));
      RefusalRepeats(NOTHING_MADE, gets, t, i);
      var again := Get(gets[i].container, gets[i].table, t, true);
      assert On(gets[..i + 1] + [again], tables);
    } else {
      forall gets | On(gets, tables) ensures multiset(Gets(NOTHING_MADE, gets).world.calls)[t] <= 1 {
        NoRefusal(gets, tables, t);
        RunMakesOnce(NOTHING_MADE, gets, t);
      }
    }
  }

  lemma NoRefusal(gets: seq<Get>, tables: iset<Table>, t: Token)
    requires !CanBeRefused(tables, t) && On(gets, tables)
    ensures forall i | 0 <= i < |gets| :: Gets(NOTHING_MADE, gets).results[i] != Err(AsyncFactory(t))
    ensures Once(t, StoreOf(NOTHING_MADE, 0))
  {
    hide Gets;
  }

  // ----- singletons are shared ------------------------------------------------------------

  /** A get of `t` through a container in which it is a singleton. */
  predicate AsksFor(get: Get, t: Token) {
    get.token == t && t in get.table && get.table[t].Provided? && get.table[t].scope == Singleton
  }

  lemma {:induction false} KeptSingletonIsAnswered(w: World, gets: seq<Get>, t: Token, i: nat)
    requires t in w.singletons && i < |gets| && AsksFor(gets[i], t)
    ensures Gets(w, gets).results[i] == Ok(w.singletons[t])
    decreases |gets|
  {
    var st := StoreOf(w, gets[0].container);
    ResolveFrames(gets[0].table, gets[0].sync, gets[0].token, [], st);
    if i > 0 {
      var o := Resolved(gets[0].table, gets[0].sync, gets[0].token, [], st);
      assert gets[1..][i - 1] == gets[i];
      KeptSingletonIsAnswered(WorldAfter(w, gets[0].container, o.store), gets[1..], t, i - 1);
    }
  }

  /** Once a get of a singleton has succeeded, every later one, through any container, gives the same instance. */
  lemma {:induction false} SingletonsAreShared(w: World, gets: seq<Get>, t: Token, i: nat, j: nat)
    requires i < j < |gets| && AsksFor(gets[i], t) && AsksFor(gets[j], t) && Gets(w, gets).results[i].Ok?
    ensures Gets(w, gets).results[j] == Gets(w, gets).results[i]
    decreases |gets|
  {
    var st := StoreOf(w, gets[0].container);
    var o := Resolved(gets[0].table, gets[0].sync, gets[0].token, [], st);
    var after := WorldAfter(w, gets[0].container, o.store);
    assert gets[1..][j - 1] == gets[j];
    if i == 0 {
      ResolvedIsKept(gets[0].table, gets[0].sync, t, st);
      KeptSingletonIsAnswered(after, gets[1..], t, j - 1);
    } else {
      assert gets[1..][i - 1] == gets[i];
      SingletonsAreShared(after, gets[1..], t, i - 1, j - 1);
    }
  }

  // ----- the synchronous copy -------------------------------------------------------------

  /** Without asynchronous factories, `getSync` does what `get` does. */
  lemma {:induction false} SyncAgrees(table: Table, token: Token, seen: seq<Token>, st: Store)
    requires AllSync(table)
    ensures Resolved(table, true, token, seen, st) == Resolved(table, false, token, seen, st)
    decreases table.Keys - Elements(seen), 1, 0
  {
    if token !in seen && token in table {
      assert token in table.Keys - Elements(seen) && token !in table.Keys - Elements(seen + [token]);
      assert !HasAsync(table[token]);
      match table[token] {
        case Existing(target) => SyncAgrees(table, target, seen + [token], st);
        case Provided(recipe, _) => if recipe.Call? { SyncAllAgree(table, recipe.deps, seen + [token], st); }
      }
    }
  }

  lemma {:induction false} SyncAllAgree(table: Table, tokens: seq<Token>, seen: seq<Token>, st: Store)
    requires AllSync(table)
    ensures ResolvedAll(table, true, tokens, seen, st) == ResolvedAll(table, false, tokens, seen, st)
    decreases table.Keys - Elements(seen), 2, |tokens|
  {
    if tokens != [] {
      SyncAgrees(table, tokens[0], seen, st);
      var first := Resolved(table, true, tokens[0], seen, st);
      if first.result.Ok? { SyncAllAgree(table, tokens[1..], seen, first.store); }
    }
  }
}
