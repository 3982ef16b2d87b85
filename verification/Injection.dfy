/** What the container resolves: a function of the provider table and the caches. */
module Injection {
  import opened Results
  import opened Lists

  type Token = string

  datatype Scope = Singleton | Request | Transient

  /** How an instance comes about: a given value, or a constructor or factory call on resolved dependencies. */
  datatype Recipe = Value | Call(deps: seq<Token>, isAsync: bool)

  datatype Provider = Existing(target: Token) | Provided(recipe: Recipe, scope: Scope)

  type Table = map<Token, Provider>

  /** A given value, or the outcome of the call with that serial number. */
  datatype Instance = Given(token: Token) | Made(serial: nat, token: Token)

  datatype Problem = Circular(chain: seq<Token>) | NoProvider(token: Token) | AsyncFactory(token: Token)

  /** The singletons of the root, the request cache of the container, and the calls made so far. */
  datatype Store = Store(singletons: map<Token, Instance>, request: map<Token, Instance>, calls: seq<Token>)

  datatype Outcome<T> = Outcome(result: Result<T, Problem>, store: Store)

  predicate Cached(st: Store, token: Token, scope: Scope) {
    (scope == Singleton && token in st.singletons) || (scope == Request && token in st.request)
  }

  function Lookup(st: Store, token: Token, scope: Scope): Instance
    requires Cached(st, token, scope)
  {
    if scope == Singleton then st.singletons[token] else st.request[token]
  }

  /** Keep an instance as its scope says. */
  function Kept(st: Store, token: Token, scope: Scope, instance: Instance): Store {
    match scope
    case Singleton => st.(singletons := st.singletons[token := instance])
    case Request => st.(request := st.request[token := instance])
    case Transient => st
  }

  /** Resolve a token; `seen` is the path to it, and `sync` refuses factories that return a promise. */
  ghost function Resolved(table: Table, sync: bool, token: Token, seen: seq<Token>, st: Store): Outcome<Instance>
    decreases table.Keys - Elements(seen), 1, 0
  {
    if token in seen then Outcome(Err(Circular(seen + [token])), st)
    else if token !in table then Outcome(Err(NoProvider(token)), st)
    else
      assert token in table.Keys - Elements(seen) && token !in table.Keys - Elements(seen + [token]);
      match table[token]
      case Existing(target) => Resolved(table, sync, target, seen + [token], st)
      case Provided(recipe, scope) =>
        if Cached(st, token, scope) then Outcome(Ok(Lookup(st, token, scope)), st)
        else
          var made := Instantiated(table, sync, token, recipe, seen + [token], st);
          match made.result
          case Err(_) => made
          case Ok(instance) => Outcome(made.result, Kept(made.store, token, scope, instance))
  }

  ghost function Instantiated(table: Table, sync: bool, token: Token, recipe: Recipe, seen: seq<Token>, st: Store)
    : Outcome<Instance>
    decreases table.Keys - Elements(seen), 3, 0
  {
    match recipe
    case Value => Outcome(Ok(Given(token)), st)
    case Call(deps, isAsync) =>
      var all := ResolvedAll(table, sync, deps, seen, st);
      match all.result
      case Err(e) => Outcome(Err(e), all.store)
      case Ok(_) =>
        var after := all.store.(calls := all.store.calls + [token]);
        if sync && isAsync then Outcome(Err(AsyncFactory(token)), after)
        else Outcome(Ok(Made(|all.store.calls|, token)), after)
  }

  ghost function ResolvedAll(table: Table, sync: bool, tokens: seq<Token>, seen: seq<Token>, st: Store)
    : Outcome<seq<Instance>>
    decreases table.Keys - Elements(seen), 2, |tokens|
  {
    if tokens == [] then Outcome(Ok([]), st)
    else
      var first := Resolved(table, sync, tokens[0], seen, st);
      match first.result
      case Err(e) => Outcome(Err(e), first.store)
      case Ok(instance) =>
        var rest := ResolvedAll(table, sync, tokens[1..], seen, first.store);
        match rest.result
        case Err(e) => rest
        case Ok(more) => Outcome(Ok([instance] + more), rest.store)
  }

  // ----- the graph that is left to resolve ------------------------------------------------

  /** What the resolution of a token that is not cached asks for. */
  function Needs(table: Table, st: Store, token: Token): seq<Token> {
    if token !in table then []
    else
      match table[token]
      case Existing(target) => [target]
      case Provided(recipe, scope) =>
        if Cached(st, token, scope) || recipe.Value? then [] else recipe.deps
  }

  function Next(table: Table, st: Store): Token -> seq<Token> { t => Needs(table, st, t) }
}
