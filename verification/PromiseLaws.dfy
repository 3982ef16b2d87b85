/** For which provider tables a synchronous get can come to an asynchronous factory, so that it is called repeatedly. */
module PromiseLaws {
  import opened Results
  import opened Walks
  import opened Injection
  import opened InjectionLaws
  import opened Lists

  /** Nothing is cached. */
  const BARE := Store(map[], map[], [])

  /** What a token asks for as long as nothing is cached. */
  function Deep(table: Table): Token -> seq<Token> { Next(table, BARE) }

  /** All that the token asks for has a provider, and no cycle is reached. */
  ghost predicate Grounded(table: Table, token: Token) { Complete(table, BARE, token) && !Cyclic(Deep(table), token) }

  /**
   A table under which `t` is called again by every `getSync`: its factory is asynchronous, all that it asks for has a
   provider, there is no cycle, and no dependency meets a transient asynchronous factory through aliases and
   transient calls.
   */
  ghost predicate Repeats(table: Table, t: Token) {
    && t in table && HasAsync(table[t]) && Grounded(table, t)
    && forall d | d in table[t].recipe.deps :: !MeetsPromise(table, d)
  }

  // ----- the graph ------------------------------------------------------------------------

  lemma GroundedStep(table: Table, token: Token)
    requires token in table && forall d | d in Deep(table)(token) :: Complete(table, BARE, d)
    ensures Complete(table, BARE, token)
  {
    hide Needs;
    forall x | Reaches(Deep(table), token, x) ensures x in table {
      if x != token {
        var d := ReachStep(Deep(table), token, x);
      }
    }
  }

  lemma GroundedBelow(table: Table, token: Token, d: Token)
    requires Grounded(table, token) && d in Deep(table)(token)
    ensures Grounded(table, d) && !Reaches(Deep(table), d, token)
  {
    hide Needs;
    ReachesOn(Deep(table), token, d);
    if Reaches(Deep(table), d, token) { WayBackIsCycle(Deep(table), token, d); }
  }

  /** What is resolved anew is asked for. */
  lemma AnewIsDeep(table: Table, from: Token, to: Token)
    requires Reaches(Anew(table), from, to)
    ensures Reaches(Deep(table), from, to)
  {
    forall x, y | y in Anew(table)(x) ensures y in Deep(table)(x) {}
    var p :| Walk(Anew(table), p) && p[0] == from && p[|p| - 1] == to;
    hide Anew, AnewOf, Needs;
    assert Walk(Deep(table), p);
  }

  // ----- what a resolution keeps ----------------------------------------------------------

  ghost predicate CachedIsGrounded(table: Table, st: Store) {
    forall x | x in table && table[x].Provided? && Cached(st, x, table[x].scope) :: Grounded(table, x)
  }

  lemma NothingNew(table: Table, st: Store)
    requires CachedIsGrounded(table, st)
    ensures NewIsAcyclic(table, BARE, st)
  {
    hide Complete;
  }

  lemma KeptIsGrounded(table: Table, token: Token, st: Store)
    requires CachedIsGrounded(table, st) && token in table && table[token].Provided? && Grounded(table, token)
    ensures forall i :: CachedIsGrounded(table, Kept(st, token, table[token].scope, i))
  {
    hide Grounded;
  }

  lemma MoreCalls(table: Table, st: Store, calls: seq<Token>)
    requires CachedIsGrounded(table, st)
    ensures CachedIsGrounded(table, st.(calls := calls))
  {
    hide Grounded;
  }

  /** Whatever is cached, and whatever has been resolved, asks for nothing that is missing or on a cycle. */
  lemma {:induction false} ResolvedIsGrounded(table: Table, sync: bool, token: Token, seen: seq<Token>, st: Store)
    requires CachedIsGrounded(table, st) && Walk(Deep(table), seen + [token])
    ensures var o := Resolved(table, sync, token, seen, st);
            CachedIsGrounded(table, o.store) && (o.result.Ok? ==> Grounded(table, token))
    decreases table.Keys - Elements(seen), 1, 0
  {
    hide CachedIsGrounded, Complete, Explains, NewIsAcyclic;
    var here := seen + [token];
    NothingNew(table, st);
    ResolveFindsCycles(table, sync, token, seen, BARE, st);
    if token !in seen && token in table {
      assert token in table.Keys - Elements(seen) && token !in table.Keys - Elements(here);
      assert here[|here| - 1] == token;
      match table[token] {
        case Existing(target) =>
          WalkOn(Deep(table), here, target);
          ResolvedIsGrounded(table, sync, target, here, st);
          if Resolved(table, sync, target, here, st).result.Ok? { GroundedStep(table, token); }
        case Provided(recipe, scope) =>
          if Cached(st, token, scope) {
            assert Grounded(table, token) by { CachedOne(table, st, token); }
          } else {
            InstantiatedIsGrounded(table, sync, token, seen, st);
          }
      }
    }
  }

  lemma CachedOne(table: Table, st: Store, token: Token)
    requires CachedIsGrounded(table, st)
    requires token in table && table[token].Provided? && Cached(st, token, table[token].scope)
    ensures Grounded(table, token)
  {
  }

  lemma {:induction false} InstantiatedIsGrounded(table: Table, sync: bool, token: Token, seen: seq<Token>, st: Store)
    requires CachedIsGrounded(table, st) && Walk(Deep(table), seen + [token])
    requires token !in seen && token in table && table[token].Provided? && !Cached(st, token, table[token].scope)
    requires Resolved(table, sync, token, seen, st).result.Ok? ==> !Cyclic(Deep(table), token)
    ensures var o := Resolved(table, sync, token, seen, st);
            CachedIsGrounded(table, o.store) && (o.result.Ok? ==> Grounded(table, token))
    decreases table.Keys - Elements(seen), 0, 0
  {
    hide CachedIsGrounded, Complete;
    var here := seen + [token];
    var Provided(recipe, scope) := table[token];
    assert token in table.Keys - Elements(seen) && token !in table.Keys - Elements(here);
    assert here[|here| - 1] == token;
    match recipe {
      case Value =>
        GroundedStep(table, token);
        assert Resolved(table, sync, token, seen, st).result == Ok(Given(token));
        KeptIsGrounded(table, token, st);
      case Call(deps, isAsync) =>
        forall d | d in deps ensures Walk(Deep(table), here + [d]) { WalkOn(Deep(table), here, d); }
        AllAreGrounded(table, sync, deps, here, st);
        var all := ResolvedAll(table, sync, deps, here, st);
        if all.result.Ok? {
          var after := all.store.(calls := all.store.calls + [token]);
          MoreCalls(table, all.store, after.calls);
          GroundedStep(table, token);
          if !(sync && isAsync) { KeptIsGrounded(table, token, after); }
        }
    }
  }

  lemma {:induction false} AllAreGrounded(table: Table, sync: bool, tokens: seq<Token>, seen: seq<Token>, st: Store)
    requires CachedIsGrounded(table, st) && forall t | t in tokens :: Walk(Deep(table), seen + [t])
    ensures var o := ResolvedAll(table, sync, tokens, seen, st);
            CachedIsGrounded(table, o.store) && (o.result.Ok? ==> forall t | t in tokens :: Grounded(table, t))
    decreases table.Keys - Elements(seen), 2, |tokens|
  {
    hide CachedIsGrounded, Grounded, Walk;
    if tokens != [] {
      ResolvedIsGrounded(table, sync, tokens[0], seen, st);
      var first := Resolved(table, sync, tokens[0], seen, st);
      if first.result.Ok? { AllAreGrounded(table, sync, tokens[1..], seen, first.store); }
    }
  }

  // ----- a refusal needs such a table -----------------------------------------------------

  /** What resolves synchronously meets no promise. */
  lemma {:induction false} SyncMeetsNoPromise(table: Table, token: Token, seen: seq<Token>, st: Store)
    requires Resolved(table, true, token, seen, st).result.Ok?
    ensures !MeetsPromise(table, token)
    decreases table.Keys - Elements(seen), 1, 0
  {
    hide MeetsPromise;
    assert token in table.Keys - Elements(seen) && token !in table.Keys - Elements(seen + [token]);
    match table[token] {
      case Existing(target) =>
        SyncMeetsNoPromise(table, target, seen + [token], st);
      case Provided(recipe, scope) =>
        if recipe.Call? && scope == Transient { AllMeetNoPromise(table, recipe.deps, seen + [token], st); }
    }
    NoPromiseHere(table, token);
  }

  lemma {:induction false} AllMeetNoPromise(table: Table, tokens: seq<Token>, seen: seq<Token>, st: Store)
    requires ResolvedAll(table, true, tokens, seen, st).result.Ok?
    ensures forall d | d in tokens :: !MeetsPromise(table, d)
    decreases table.Keys - Elements(seen), 2, |tokens|
  {
    hide MeetsPromise;
    if tokens != [] {
      SyncMeetsNoPromise(table, tokens[0], seen, st);
      AllMeetNoPromise(table, tokens[1..], seen, Resolved(table, true, tokens[0], seen, st).store);
    }
  }

  lemma NoPromiseHere(table: Table, token: Token)
    requires token in table && !(HasAsync(table[token]) && table[token].scope == Transient)
    requires forall d | d in AnewOf(table, token) :: !MeetsPromise(table, d)
    ensures !MeetsPromise(table, token)
  {
    if x :| Reaches(Anew(table), token, x) && x in table && HasAsync(table[x]) && table[x].scope == Transient {
      var d := ReachStep(Anew(table), token, x);
      assert MeetsPromise(table, d);
      assert false;
    }
  }

  lemma RefusedRepeats(table: Table, t: Token, st: Store)
    requires Refused(table, t, st) && CachedIsGrounded(table, st)
    ensures Repeats(table, t)
  {
    var deps := table[t].recipe.deps;
    assert Deep(table)(t) == deps;
    hide CachedIsGrounded, Complete, MeetsPromise, Needs, NewIsAcyclic, Explains;
    assert Walk(Deep(table), [t]);
    forall d | d in deps ensures Walk(Deep(table), [t] + [d]) { WalkOn(Deep(table), [t], d); }
    NothingNew(table, st);
    AllFindCycles(table, true, deps, [t], BARE, st);
    AllAreGrounded(table, true, deps, [t], st);
    AllMeetNoPromise(table, deps, [t], st);
    GroundedStep(table, t);
    assert [] + [t] == [t];
    Expand(Deep(table), [], t);
  }

  ghost predicate WorldIsGrounded(table: Table, w: World) { forall c :: CachedIsGrounded(table, StoreOf(w, c)) }

  lemma GetKeepsGrounded(table: Table, w: World, c: nat, st: Store)
    requires WorldIsGrounded(table, w) && CachedIsGrounded(table, st)
    ensures WorldIsGrounded(table, WorldAfter(w, c, st))
  {
    hide Grounded;
    forall k ensures CachedIsGrounded(table, StoreOf(WorldAfter(w, c, st), k)) {
      assert CachedIsGrounded(table, StoreOf(w, k));
    }
  }

  lemma {:induction false} RefusalNeedsTable(table: Table, t: Token, w: World, gets: seq<Get>, i: nat)
    requires On(gets, iset{table}) && WorldIsGrounded(table, w)
    requires i < |gets| && Gets(w, gets).results[i] == Err(AsyncFactory(t))
    ensures Repeats(table, t)
    decreases |gets|
  {
    hide CachedIsGrounded, Repeats, Refused, Resolved;
    var g := gets[0];
    var st := StoreOf(w, g.container);
    var o := Resolved(table, g.sync, g.token, [], st);
    assert g.table == table && [] + [g.token] == [g.token];
    ResolvedIsGrounded(table, g.sync, g.token, [], st);
    if i == 0 {
      RefusedIs(table, g.sync, g.token, [], st, t);
      RefusedRepeats(table, t, o.store);
    } else {
      var after := WorldAfter(w, g.container, o.store);
      GetKeepsGrounded(table, w, g.container, o.store);
      hide WorldIsGrounded;
      assert Gets(after, gets[1..]).results[i - 1] == Gets(w, gets).results[i];
      assert On(gets[1..], iset{table}) by { assert forall k | 0 <= k < |gets| - 1 :: gets[1..][k] == gets[k + 1]; }
      RefusalNeedsTable(table, t, after, gets[1..], i - 1);
    }
  }

  // ----- such a table has a run that is refused -------------------------------------------

  /** A grounded token resolves. */
  lemma GroundedResolves(table: Table, token: Token, st: Store)
    requires Grounded(table, token) && CachedIsGrounded(table, st)
    ensures Resolved(table, false, token, [], st).result.Ok?
  {
    hide CachedIsGrounded, NewIsAcyclic, Resolved;
    NothingNew(table, st);
    assert [] + [token] == [token];
    ResolveFindsCycles(table, false, token, [], BARE, st);
    hide Walk, Closes, Reaches;
  }

  /** A token that is not asked for is not cached. */
  lemma {:induction false} UnaskedIsUntouched(table: Table, sync: bool, token: Token, seen: seq<Token>, st: Store,
                                              t: Token)
    requires !Reaches(Deep(table), token, t)
    ensures t in Resolved(table, sync, token, seen, st).store.singletons ==> t in st.singletons
    decreases table.Keys - Elements(seen), 1, 0
  {
    ReachesItself(Deep(table), token);
    assert token != t;
    if token !in seen && token in table {
      assert token in table.Keys - Elements(seen) && token !in table.Keys - Elements(seen + [token]);
      forall d | d in Deep(table)(token) ensures !Reaches(Deep(table), d, t) { ReachesOn(Deep(table), token, d); }
      hide Reaches;
      match table[token] {
        case Existing(target) =>
          UnaskedIsUntouched(table, sync, target, seen + [token], st, t);
        case Provided(recipe, scope) =>
          if !Cached(st, token, scope) {
            if recipe.Call? { AllAreUntouched(table, sync, recipe.deps, seen + [token], st, t); }
            var made := Instantiated(table, sync, token, recipe, seen + [token], st);
            assert t in made.store.singletons ==> t in st.singletons;
          }
      }
    }
  }

  lemma {:induction false} AllAreUntouched(table: Table, sync: bool, tokens: seq<Token>, seen: seq<Token>, st: Store,
                                           t: Token)
    requires forall d | d in tokens :: !Reaches(Deep(table), d, t)
    ensures t in ResolvedAll(table, sync, tokens, seen, st).store.singletons ==> t in st.singletons
    decreases table.Keys - Elements(seen), 2, |tokens|
  {
    hide Reaches;
    if tokens != [] {
      UnaskedIsUntouched(table, sync, tokens[0], seen, st, t);
      var first := Resolved(table, sync, tokens[0], seen, st);
      if first.result.Ok? { AllAreUntouched(table, sync, tokens[1..], seen, first.store, t); }
    }
  }

  /** The token was resolved before, and the caches have only grown since. */
  ghost predicate Warm(table: Table, token: Token, st: Store) {
    exists first ::
      var o := Resolved(table, false, token, [], first);
      o.result.Ok? && Grown(o.store, st)
  }

  lemma StaysWarm(table: Table, token: Token, st: Store, later: Store)
    requires Warm(table, token, st) && Grown(st, later)
    ensures Warm(table, token, later)
  {
    hide Resolved;
    var first :| var o := Resolved(table, false, token, [], first); o.result.Ok? && Grown(o.store, st);
    assert Grown(Resolved(table, false, token, [], first).store, later);
  }

  /** With its dependencies resolved before, they resolve synchronously. */
  lemma {:induction false} WarmDepsResolve(table: Table, t: Token, tokens: seq<Token>, st: Store)
    requires Repeats(table, t)
    requires forall d | d in tokens :: d in table[t].recipe.deps && Warm(table, d, st)
    ensures ResolvedAll(table, true, tokens, [t], st).result.Ok?
    decreases |tokens|
  {
    if tokens != [] {
      var d := tokens[0];
      WarmDepResolves(table, t, d, st);
      hide Repeats, Warm, Resolved;
      ResolveFrames(table, true, d, [t], st);
      var next := Resolved(table, true, d, [t], st).store;
      forall e | e in tokens[1..] ensures Warm(table, e, next) { StaysWarm(table, e, st, next); }
      WarmDepsResolve(table, t, tokens[1..], next);
    }
  }

  lemma WarmDepResolves(table: Table, t: Token, d: Token, st: Store)
    requires Repeats(table, t) && d in table[t].recipe.deps && Warm(table, d, st)
    ensures Resolved(table, true, d, [t], st).result.Ok?
  {
    assert d in Deep(table)(t);
    hide Resolved, Grounded, MeetsPromise, Needs;
    var first :| var o := Resolved(table, false, d, [], first); o.result.Ok? && Grown(o.store, st);
    GroundedBelow(table, t, d);
    assert Avoids(table, d, [], [t]) by {
      if Reaches(Anew(table), d, t) { AnewIsDeep(table, d, t); }
    }
    ResolvedAgain(table, false, true, d, [], [t], first, st);
  }

  /** Get the dependencies asynchronously, those in `tokens` being left, then `t` synchronously. */
  lemma {:induction false} RefusedRun(table: Table, t: Token, tokens: seq<Token>, w: World) returns (gets: seq<Get>)
    requires Repeats(table, t) && IsSingleton(table, t) && t !in w.singletons && CachedIsGrounded(table, StoreOf(w, 0))
    requires forall d | d in tokens :: d in table[t].recipe.deps
    requires forall d | d in table[t].recipe.deps :: d in tokens || Warm(table, d, StoreOf(w, 0))
    ensures gets != [] && On(gets, iset{table})
    ensures Gets(w, gets).results[|gets| - 1] == Err(AsyncFactory(t))
    decreases |tokens|
  {
    var st := StoreOf(w, 0);
    if tokens == [] {
      LastGet(table, t, w);
      gets := [Get(0, table, t, true)];
    } else {
      var d := tokens[0];
      var o := Resolved(table, false, d, [], st);
      DependencyResolves(table, t, d, st);
      var after := WorldAfter(w, 0, o.store);
      assert StoreOf(after, 0) == o.store;
      hide Repeats, Warm, Resolved, Grown, CachedIsGrounded;
      forall e | e in table[t].recipe.deps ensures e in tokens[1..] || Warm(table, e, o.store) {
        if e != d && e !in tokens[1..] { StaysWarm(table, e, st, o.store); }
      }
      var rest := RefusedRun(table, t, tokens[1..], after);
      gets := [Get(0, table, d, false)] + rest;
      assert gets[1..] == rest;
    }
  }

  lemma LastGet(table: Table, t: Token, w: World)
    requires Repeats(table, t) && IsSingleton(table, t) && t !in w.singletons
    requires forall d | d in table[t].recipe.deps :: Warm(table, d, StoreOf(w, 0))
    ensures Gets(w, [Get(0, table, t, true)]).results[0] == Err(AsyncFactory(t))
  {
    var deps := table[t].recipe.deps;
    WarmDepsResolve(table, t, deps, StoreOf(w, 0));
    hide Warm, Grounded, MeetsPromise;
    GetSyncRepeatsTheFactory(table, t, deps, StoreOf(w, 0));
  }

  lemma DependencyResolves(table: Table, t: Token, d: Token, st: Store)
    requires Repeats(table, t) && d in table[t].recipe.deps && t !in st.singletons && CachedIsGrounded(table, st)
    ensures var o := Resolved(table, false, d, [], st);
            && o.result.Ok? && Grown(st, o.store) && Warm(table, d, o.store)
            && t !in o.store.singletons && CachedIsGrounded(table, o.store)
  {
    assert d in Deep(table)(t);
    hide Resolved, CachedIsGrounded, MeetsPromise, Grounded, Needs;
    GroundedBelow(table, t, d);
    GroundedResolves(table, d, st);
    assert [] + [d] == [d];
    ResolvedIsGrounded(table, false, d, [], st);
    UnaskedIsUntouched(table, false, d, [], st, t);
    ResolveFrames(table, false, d, [], st);
    var o := Resolved(table, false, d, [], st);
    assert Grown(o.store, o.store);
  }

  // ----- the theorems ---------------------------------------------------------------------

  /** Some synchronous get of some run comes to the asynchronous factory of `t` exactly when the table is such a one. */
  lemma RefusedExactly(table: Table, t: Token)
    requires IsSingleton(table, t)
    ensures CanBeRefused(iset{table}, t) <==> Repeats(table, t)
  {
    hide Repeats, IsSingleton, Gets, CachedIsGrounded;
    NothingMadeIsGrounded(table);
    if CanBeRefused(iset{table}, t) {
      var gets: seq<Get>, i: nat :| On(gets, iset{table}) && i < |gets|
        && Gets(NOTHING_MADE, gets).results[i] == Err(AsyncFactory(t));
      RefusalNeedsTable(table, t, NOTHING_MADE, gets, i);
    }
    if Repeats(table, t) {
      var deps := DepsOf(table, t);
      var gets := RefusedRun(table, t, deps, NOTHING_MADE);
      assert Gets(NOTHING_MADE, gets).results[|gets| - 1] == Err(AsyncFactory(t));
    }
  }

  lemma DepsOf(table: Table, t: Token) returns (deps: seq<Token>)
    requires Repeats(table, t)
    ensures t in table && HasAsync(table[t]) && deps == table[t].recipe.deps
  {
    deps := table[t].recipe.deps;
  }

  lemma NothingMadeIsGrounded(table: Table)
    ensures WorldIsGrounded(table, NOTHING_MADE) && CachedIsGrounded(table, StoreOf(NOTHING_MADE, 0))
  {
  }

  /**
   Over all runs of `get` and `getSync` on containers with this table, a singleton is made at most once, unless its
   factory is asynchronous, all that it asks for has a provider, no cycle is reached, and no dependency meets a
   transient asynchronous factory through aliases and transient calls.
   */
  lemma SingletonsAreMadeOnce(table: Table, t: Token)
    requires IsSingleton(table, t)
    ensures (forall gets | On(gets, iset{table}) :: multiset(Gets(NOTHING_MADE, gets).world.calls)[t] <= 1)
            <==> !Repeats(table, t)
  {
    hide *;
    RefusedExactly(table, t);
    MadeOnceUnlessRefused(iset{table}, t);
  }

  // ----- one call -------------------------------------------------------------------------

  /** A token on the path is not refused for its own promise. */
  lemma {:induction false} PathIsNotRefused(table: Table, sync: bool, token: Token, seen: seq<Token>, st: Store,
                                            t: Token)
    requires t in seen
    ensures NotRefused(Resolved(table, sync, token, seen, st), t)
    decreases table.Keys - Elements(seen), 1, 0
  {
    if token !in seen && token in table {
      assert token in table.Keys - Elements(seen) && token !in table.Keys - Elements(seen + [token]);
      match table[token] {
        case Existing(target) => PathIsNotRefused(table, sync, target, seen + [token], st, t);
        case Provided(recipe, _) =>
          if recipe.Call? { DepsAreNotRefused(table, sync, recipe.deps, seen + [token], st, t); }
      }
    }
  }

  lemma {:induction false} DepsAreNotRefused(table: Table, sync: bool, tokens: seq<Token>, seen: seq<Token>, st: Store,
                                             t: Token)
    requires t in seen
    ensures NotRefused(ResolvedAll(table, sync, tokens, seen, st), t)
    decreases table.Keys - Elements(seen), 2, |tokens|
  {
    if tokens != [] {
      PathIsNotRefused(table, sync, tokens[0], seen, st, t);
      var first := Resolved(table, sync, tokens[0], seen, st);
      if first.result.Ok? { DepsAreNotRefused(table, sync, tokens[1..], seen, first.store, t); }
    }
  }

  /** `getSync` refuses the promise of `t` exactly when its factory is asynchronous, it is not cached, and its
      dependencies resolve. */
  lemma GetSyncIsRefusedExactly(table: Table, t: Token, st: Store)
    ensures Resolved(table, true, t, [], st).result == Err(AsyncFactory(t))
            <==> t in table && HasAsync(table[t]) && !Cached(st, t, table[t].scope)
                 && ResolvedAll(table, true, table[t].recipe.deps, [t], st).result.Ok?
  {
    assert [] + [t] == [t];
    if t in table {
      match table[t] {
        case Existing(target) => PathIsNotRefused(table, true, target, [t], st, t);
        case Provided(recipe, _) => if recipe.Call? { DepsAreNotRefused(table, true, recipe.deps, [t], st, t); }
      }
    }
  }
}
