/** What request scope and transient scope mean over runs of gets: one instance per container, and one per get. */
module ScopeLaws {
  import opened Results
  import opened Injection
  import opened InjectionLaws
  import opened Lists

  // ----- instances are numbered -----------------------------------------------------------

  /** The instance was made by a call after the first `from` ones and before call `to`. */
  predicate MadeWithin(i: Instance, from: nat, to: nat) { i.Made? ==> from <= i.serial < to }

  /** What a resolution adds to the request cache, and what it makes, are instances of its own calls. */
  ghost predicate AddsOwn(a: Store, b: Store) {
    && |a.calls| <= |b.calls|
    && forall x | x in b.request && x !in a.request :: MadeWithin(b.request[x], |a.calls|, |b.calls|)
  }

  lemma OwnTwice(a: Store, b: Store, c: Store)
    requires AddsOwn(a, b) && AddsOwn(b, c) && Grown(b, c)
    ensures AddsOwn(a, c)
  {
  }

  lemma {:induction false} ResolveAddsOwn(table: Table, sync: bool, token: Token, seen: seq<Token>, st: Store)
    ensures AddsOwn(st, Resolved(table, sync, token, seen, st).store)
    decreases table.Keys - Elements(seen), 1, 0
  {
    if token !in seen && token in table {
      assert token in table.Keys - Elements(seen) && token !in table.Keys - Elements(seen + [token]);
      match table[token] {
        case Existing(target) => ResolveAddsOwn(table, sync, target, seen + [token], st);
        case Provided(recipe, scope) =>
          if !Cached(st, token, scope) && recipe.Call? {
            AllAddOwn(table, sync, recipe.deps, seen + [token], st);
          }
      }
    }
  }

  lemma {:induction false} AllAddOwn(table: Table, sync: bool, tokens: seq<Token>, seen: seq<Token>, st: Store)
    ensures AddsOwn(st, ResolvedAll(table, sync, tokens, seen, st).store)
    decreases table.Keys - Elements(seen), 2, |tokens|
  {
    hide AddsOwn;
    assert AddsOwn(st, st) by { NothingAdded(st); }
    if tokens != [] {
      ResolveAddsOwn(table, sync, tokens[0], seen, st);
      var first := Resolved(table, sync, tokens[0], seen, st);
      if first.result.Ok? {
        AllAddOwn(table, sync, tokens[1..], seen, first.store);
        ResolveAllFrames(table, sync, tokens[1..], seen, first.store);
        OwnTwice(st, first.store, ResolvedAll(table, sync, tokens[1..], seen, first.store).store);
      }
    }
  }

  lemma NothingAdded(st: Store)
    ensures AddsOwn(st, st)
  {
  }

  // ----- worlds ---------------------------------------------------------------------------

  /** Every cached instance that was made was made by a call so far, and no two containers hold the same one under a
      token. */
  ghost predicate Apart(w: World) {
    && (forall c, x | c in w.requests && x in w.requests[c] :: MadeWithin(w.requests[c][x], 0, |w.calls|))
    && (forall c, d, x | c in w.requests && d in w.requests && c != d && x in w.requests[c] && x in w.requests[d]
                         && w.requests[c][x].Made? :: w.requests[c][x] != w.requests[d][x])
  }

  lemma GetKeepsApart(w: World, c: nat, st: Store)
    requires Apart(w) && AddsOwn(StoreOf(w, c), st) && Grown(StoreOf(w, c), st)
    ensures Apart(WorldAfter(w, c, st))
  {
    var before, after := StoreOf(w, c), WorldAfter(w, c, st);
    forall d, x | d in after.requests && x in after.requests[d]
      ensures MadeWithin(after.requests[d][x], 0, |after.calls|)
    {
      if d != c { assert after.requests[d] == w.requests[d]; }
    }
    forall d, x | d in w.requests && d != c && x in st.request && x in w.requests[d] && st.request[x].Made?
      ensures st.request[x] != w.requests[d][x]
    {
      if x !in before.request { assert MadeWithin(w.requests[d][x], 0, |w.calls|); }
    }
  }

  lemma {:induction false} RunKeepsApart(w: World, gets: seq<Get>)
    requires Apart(w)
    ensures Apart(Gets(w, gets).world)
    decreases |gets|
  {
    hide Apart, Resolved;
    if gets != [] {
      var g := gets[0];
      var st := StoreOf(w, g.container);
      ResolveAddsOwn(g.table, g.sync, g.token, [], st);
      ResolveFrames(g.table, g.sync, g.token, [], st);
      var o := Resolved(g.table, g.sync, g.token, [], st);
      GetKeepsApart(w, g.container, o.store);
      RunKeepsApart(WorldAfter(w, g.container, o.store), gets[1..]);
    }
  }

  /** Over a run the caches of all containers only grow. */
  ghost predicate KeepsRequests(a: World, b: World) {
    forall c, x | c in a.requests && x in a.requests[c] ::
      c in b.requests && x in b.requests[c] && b.requests[c][x] == a.requests[c][x]
  }

  lemma {:induction false} RunKeepsRequests(w: World, gets: seq<Get>)
    ensures KeepsRequests(w, Gets(w, gets).world)
    decreases |gets|
  {
    hide Resolved;
    if gets != [] {
      var g := gets[0];
      var st := StoreOf(w, g.container);
      ResolveFrames(g.table, g.sync, g.token, [], st);
      var o := Resolved(g.table, g.sync, g.token, [], st);
      var after := WorldAfter(w, g.container, o.store);
      assert KeepsRequests(w, after);
      RunKeepsRequests(after, gets[1..]);
    }
  }

  // ----- request scope --------------------------------------------------------------------

  /** A get of a token that is request-scoped in its container. */
  predicate AsksForOwn(get: Get) {
    get.token in get.table && get.table[get.token].Provided? && get.table[get.token].scope == Request
  }

  /** What a get of a request-scoped token gives is in the cache of its container from then on. */
  lemma {:induction false} OwnIsKept(w: World, gets: seq<Get>, i: nat)
    requires i < |gets| && AsksForOwn(gets[i]) && Gets(w, gets).results[i].Ok?
    ensures var last, c := Gets(w, gets).world, gets[i].container;
            c in last.requests && gets[i].token in last.requests[c]
            && last.requests[c][gets[i].token] == Gets(w, gets).results[i].value
    decreases |gets|
  {
    var g := gets[0];
    var o := Resolved(g.table, g.sync, g.token, [], StoreOf(w, g.container));
    var after := WorldAfter(w, g.container, o.store);
    if i == 0 {
      assert g.token in o.store.request && o.store.request[g.token] == o.result.value;
      hide Resolved;
      assert Gets(w, gets).results[0] == o.result && Gets(w, gets).world == Gets(after, gets[1..]).world;
      RunKeepsRequests(after, gets[1..]);
      assert after.requests[g.container] == o.store.request;
    } else {
      hide Resolved;
      assert gets[1..][i - 1] == gets[i] && Gets(after, gets[1..]).results[i - 1] == Gets(w, gets).results[i];
      OwnIsKept(after, gets[1..], i - 1);
    }
  }

  /** A cached token is answered from the cache of its container. */
  lemma {:induction false} OwnIsAnswered(w: World, gets: seq<Get>, j: nat)
    requires j < |gets| && AsksForOwn(gets[j])
    requires gets[j].container in w.requests && gets[j].token in w.requests[gets[j].container]
    ensures Gets(w, gets).results[j] == Ok(w.requests[gets[j].container][gets[j].token])
    decreases |gets|
  {
    var g := gets[0];
    var st := StoreOf(w, g.container);
    var o := Resolved(g.table, g.sync, g.token, [], st);
    if j > 0 {
      ResolveFrames(g.table, g.sync, g.token, [], st);
      hide Resolved;
      assert gets[1..][j - 1] == gets[j];
      OwnIsAnswered(WorldAfter(w, g.container, o.store), gets[1..], j - 1);
    }
  }

  /** Over every run: once a get of a request-scoped token has succeeded, every later one in the same scope gives the
      same instance. */
  lemma {:induction false} ScopeSharesInstance(w: World, gets: seq<Get>, i: nat, j: nat)
    requires i < j < |gets| && AsksForOwn(gets[i]) && AsksForOwn(gets[j]) && gets[i].token == gets[j].token
    requires gets[i].container == gets[j].container && Gets(w, gets).results[i].Ok?
    ensures Gets(w, gets).results[j] == Gets(w, gets).results[i]
    decreases |gets|
  {
    var g := gets[0];
    var o := Resolved(g.table, g.sync, g.token, [], StoreOf(w, g.container));
    var after := WorldAfter(w, g.container, o.store);
    assert gets[1..][j - 1] == gets[j] && Gets(after, gets[1..]).results[j - 1] == Gets(w, gets).results[j];
    if i == 0 {
      assert g.token in o.store.request && o.store.request[g.token] == o.result.value;
      hide Resolved;
      OwnIsAnswered(after, gets[1..], j - 1);
    } else {
      hide Resolved;
      assert gets[1..][i - 1] == gets[i] && Gets(after, gets[1..]).results[i - 1] == Gets(w, gets).results[i];
      ScopeSharesInstance(after, gets[1..], i - 1, j - 1);
    }
  }

  /** Over every run: two scopes never give the same made instance of a request-scoped token. */
  lemma {:induction false} ScopesAreApart(gets: seq<Get>, i: nat, j: nat)
    requires i < |gets| && j < |gets| && AsksForOwn(gets[i]) && AsksForOwn(gets[j])
    requires gets[i].token == gets[j].token && gets[i].container != gets[j].container
    requires Gets(NOTHING_MADE, gets).results[i].Ok? && Gets(NOTHING_MADE, gets).results[i].value.Made?
    ensures Gets(NOTHING_MADE, gets).results[j] != Gets(NOTHING_MADE, gets).results[i]
  {
    RunKeepsApart(NOTHING_MADE, gets);
    OwnIsKept(NOTHING_MADE, gets, i);
    var second := Gets(NOTHING_MADE, gets).results[j];
    if second.Ok? { OwnIsKept(NOTHING_MADE, gets, j); }
  }

  // ----- transient scope ------------------------------------------------------------------

  /** A get of a token that is made anew each time. */
  predicate AsksForNew(get: Get) {
    get.token in get.table && get.table[get.token].Provided? && get.table[get.token].scope == Transient
    && get.table[get.token].recipe.Call?
  }

  lemma NewIsMade(table: Table, sync: bool, token: Token, st: Store)
    requires token in table && table[token].Provided? && table[token].scope == Transient && table[token].recipe.Call?
    ensures var o := Resolved(table, sync, token, [], st);
            o.result.Ok? ==> o.result.value.Made? && |st.calls| <= o.result.value.serial < |o.store.calls|
  {
    var deps := table[token].recipe.deps;
    ResolveAllFrames(table, sync, deps, [] + [token], st);
    var all := ResolvedAll(table, sync, deps, [] + [token], st);
    var made := Instantiated(table, sync, token, table[token].recipe, [] + [token], st);
    hide ResolvedAll;
    assert made.result.Ok? ==> made.result.value == Made(|all.store.calls|, token);
  }

  lemma {:induction false} NewIsLater(w: World, gets: seq<Get>, j: nat)
    requires j < |gets| && AsksForNew(gets[j]) && Gets(w, gets).results[j].Ok?
    ensures var r := Gets(w, gets).results[j].value; r.Made? && r.serial >= |w.calls|
    decreases |gets|
  {
    var g := gets[0];
    var st := StoreOf(w, g.container);
    var o := Resolved(g.table, g.sync, g.token, [], st);
    var after := WorldAfter(w, g.container, o.store);
    ResolveFrames(g.table, g.sync, g.token, [], st);
    if j == 0 {
      NewIsMade(g.table, g.sync, g.token, st);
    } else {
      hide Resolved;
      assert gets[1..][j - 1] == gets[j] && Gets(after, gets[1..]).results[j - 1] == Gets(w, gets).results[j];
      NewIsLater(after, gets[1..], j - 1);
    }
  }

  /** Over every run: each get of a transient token gives an instance of its own. */
  lemma {:induction false} TransientIsNew(w: World, gets: seq<Get>, i: nat, j: nat)
    requires i < j < |gets| && AsksForNew(gets[i]) && AsksForNew(gets[j])
    requires Gets(w, gets).results[i].Ok?
    ensures Gets(w, gets).results[j] != Gets(w, gets).results[i]
    decreases |gets|
  {
    var g := gets[0];
    var o := Resolved(g.table, g.sync, g.token, [], StoreOf(w, g.container));
    var after := WorldAfter(w, g.container, o.store);
    assert gets[1..][j - 1] == gets[j] && Gets(after, gets[1..]).results[j - 1] == Gets(w, gets).results[j];
    if i == 0 {
      NewIsMade(g.table, g.sync, g.token, StoreOf(w, g.container));
      hide Resolved;
      if Gets(w, gets).results[j].Ok? { NewIsLater(after, gets[1..], j - 1); }
    } else {
      hide Resolved;
      assert gets[1..][i - 1] == gets[i] && Gets(after, gets[1..]).results[i - 1] == Gets(w, gets).results[i];
      TransientIsNew(after, gets[1..], i - 1, j - 1);
    }
  }
}
