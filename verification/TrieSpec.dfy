/** The route trie as a value: what a search for a path means, and which registered pattern it finds. */
module TrieSpec {
  import opened Text
  import opened Results

  datatype Handler = Handler(id: nat)

  /** One step of a pattern: a literal segment, a `:name`, or the closing `*`. */
  datatype Key = Lit(segment: string) | Par | Wild

  type Path = seq<Key>

  function Child(p: Path, k: Key): Path { p + [k] }

  /** What a trie node holds besides its children; `methods` lists the methods in the order of the handler table. */
  datatype Info = Info(paramName: string, handlers: map<string, seq<Handler>>, pattern: string, methods: seq<string>)

  function NewInfo(name: string): Info { Info(name, map[], "", []) }

  /** The trie: every node by the keys that lead to it. */
  type Trie = map<Path, Info>

  /** A property of the object that collects the params of a path: text, or the value that every object inherits
      under that name. */
  datatype Value = Given(text: string) | Builtin

  /** The own properties of that object. */
  type Params = map<string, Value>

  /** The router's options, with `decodeURIComponent` as a partial function. */
  datatype Options = Options(strict: bool, paramLength: int, decode: string -> Option<string>)

  predicate EndsWild(p: Path) { p != [] && p[|p| - 1] == Wild }

  /** Nodes hang together, and a wildcard node is a leaf that has handlers. */
  ghost predicate WellFormed(c: Trie) {
    && [] in c
    && (forall p, k {:trigger Child(p, k)} :: Child(p, k) in c ==> p in c && !EndsWild(p))
    && (forall p :: p in c && EndsWild(p) ==> c[p].handlers != map[])
  }

  predicate Registered(c: Trie, p: Path) { p in c && c[p].handlers != map[] }

  // ----- decoding -------------------------------------------------------------------------

  /** A segment without `%` is decoded already. */
  function Decoded(opts: Options, segment: string): Option<string> {
    if '%' in segment then opts.decode(segment) else Some(segment)
  }

  function DecodedAll(opts: Options, segments: seq<string>): (r: Option<seq<string>>)
    ensures r.Some? ==> |r.value| == |segments|
  {
    if segments == [] then Some([])
    else
      match (Decoded(opts, segments[0]), DecodedAll(opts, segments[1..]))
      case (Some(d), Some(ds)) => Some([d] + ds)
      case _ => None
  }

  /** Without `%` there is nothing to decode. */
  lemma {:induction false} PlainSegments(opts: Options, segments: seq<string>)
    requires forall i | 0 <= i < |segments| :: '%' !in segments[i]
    ensures DecodedAll(opts, segments) == Some(segments)
  {
    if segments != [] {
      PlainSegments(opts, segments[1..]);
      assert [segments[0]] + segments[1..] == segments;
    }
  }

  function Remainder(opts: Options, segments: seq<string>): Option<string> {
    match DecodedAll(opts, segments)
    case Some(ds) => Some(Join(ds, '/'))
    case None => None
  }

  ghost predicate Decodable(opts: Options, segments: seq<string>) {
    forall s | s in segments :: Decoded(opts, s).Some?
  }

  // ----- search ---------------------------------------------------------------------------

  datatype Search = Found(path: Path, params: Params) | Missing | BadEncoding

  /**
   The search of the trie below `p`: static child, then param child, then wildcard, each with the bindings
   collected on the way. `lenient` is the search for allowed methods, which treats bad encoding as a miss.
   */
  function Find(c: Trie, opts: Options, p: Path, segments: seq<string>, params: Params, lenient: bool): Search
    decreases |segments|, 1
  {
    if segments == [] then
      if Registered(c, p) then Found(p, params)
      else if Registered(c, Child(p, Wild)) then Found(Child(p, Wild), params["wildcard" := Given("")])
      else Missing
    else
      var fixed := if Child(p, Lit(segments[0])) in c
                    then Find(c, opts, Child(p, Lit(segments[0])), segments[1..], params, lenient)
                    else Missing;
      if !fixed.Missing? then fixed else FindDynamic(c, opts, p, segments, params, lenient)
  }

  /** The param child and the wildcard. */
  function FindDynamic(c: Trie, opts: Options, p: Path, segments: seq<string>, params: Params, lenient: bool): Search
    requires segments != []
    decreases |segments|, 0
  {
    if Child(p, Par) in c then
      match Decoded(opts, segments[0])
      case None => if lenient then Missing else BadEncoding
      case Some(d) =>
        var dynamic := if |d| <= opts.paramLength
                       then Find(c, opts, Child(p, Par), segments[1..],
                                 params[c[Child(p, Par)].paramName := Given(d)], lenient)
                       else Missing;
        if !dynamic.Missing? then dynamic else FindWild(c, opts, p, segments, params, lenient)
    else FindWild(c, opts, p, segments, params, lenient)
  }

  function FindWild(c: Trie, opts: Options, p: Path, segments: seq<string>, params: Params, lenient: bool): Search {
    if Child(p, Wild) in c then
      match Remainder(opts, segments)
      case None => if lenient then Missing else BadEncoding
      case Some(r) => if Registered(c, Child(p, Wild)) then Found(Child(p, Wild), params["wildcard" := Given(r)])
        else Missing
    else Missing
  }

  // ----- which pattern is found -----------------------------------------------------------

  predicate KeyMatches(opts: Options, k: Key, segment: string) {
    match k
    case Lit(s) => s == segment
    case Par => Decoded(opts, segment).Some? && |Decoded(opts, segment).value| <= opts.paramLength
    case Wild => false
  }

  /** The keys of a pattern match the segments of a path. */
  predicate Matches(opts: Options, keys: Path, segments: seq<string>) {
    if keys == [] then segments == []
    else if keys[0] == Wild then |keys| == 1
    else segments != [] && KeyMatches(opts, keys[0], segments[0]) && Matches(opts, keys[1..], segments[1..])
  }

  function Rank(k: Key): nat {
    match k case Lit(_) => 0 case Par => 1 case Wild => 2
  }

  /** `a` precedes `b` from left to right: static, then param, then wildcard; an exact end before a wildcard
      that takes nothing. */
  predicate Precedes(a: Path, b: Path) {
    if a == [] then b == [Wild]
    else if b == [] then false
    else if a[0] == b[0] then Precedes(a[1..], b[1..])
    else Rank(a[0]) < Rank(b[0])
  }

  function NameAt(c: Trie, p: Path): string { if p in c then c[p].paramName else "" }

  function OrElse<T>(o: Option<T>, default: T): T { if o.Some? then o.value else default }

  /** The bindings of the pattern `keys` that hangs below `p`, for segments that it matches. */
  function Bindings(c: Trie, opts: Options, p: Path, keys: Path, segments: seq<string>, params: Params): Params
    decreases |keys|
  {
    if keys == [] then params
    else if keys[0] == Wild then params["wildcard" := Given(OrElse(Remainder(opts, segments), ""))]
    else if segments == [] then params
    else
      var q := Child(p, keys[0]);
      Bindings(c, opts, q, keys[1..], segments[1..],
               if keys[0] == Par then params[NameAt(c, q) := Given(OrElse(Decoded(opts, segments[0]), ""))] else params)
  }

  lemma {:induction false} DecodableRemainder(opts: Options, segments: seq<string>)
    requires Decodable(opts, segments)
    ensures DecodedAll(opts, segments).Some?
  {
    if segments != [] {
      assert segments[0] in segments;
      forall s | s in segments[1..] ensures Decoded(opts, s).Some? { assert s in segments; }
      DecodableRemainder(opts, segments[1..]);
    }
  }

  // ----- the theorem ----------------------------------------------------------------------

  /** The registered patterns below `p` that match, by their keys below `p`. */
  ghost predicate Candidate(c: Trie, opts: Options, p: Path, segments: seq<string>, keys: Path) {
    Registered(c, p + keys) && Matches(opts, keys, segments)
  }

  /** The pattern found below `p` is a candidate before all others and its bindings are added to `params`. */
  ghost predicate IsBest(c: Trie, opts: Options, p: Path, segments: seq<string>, params: Params, r: Search) {
    match r
    case BadEncoding => false
    case Missing => forall keys :: !Candidate(c, opts, p, segments, keys)
    case Found(path, bound) =>
      exists best :: path == p + best && Candidate(c, opts, p, segments, best)
        && bound == Bindings(c, opts, p, best, segments, params)
        && forall keys | Candidate(c, opts, p, segments, keys) && keys != best :: Precedes(best, keys)
  }

  /** A candidate that starts with key `k` is one of the child. */
  lemma CandidateOfChild(c: Trie, opts: Options, p: Path, segments: seq<string>, keys: Path)
    requires keys != [] && keys[0] != Wild && segments != []
    ensures Candidate(c, opts, p, segments, keys) <==>
            KeyMatches(opts, keys[0], segments[0]) && Candidate(c, opts, Child(p, keys[0]), segments[1..], keys[1..])
  {
    assert Child(p, keys[0]) + keys[1..] == p + keys;
  }

  /** Every node on the way to a node is a node. */
  lemma {:induction false} PrefixIsNode(c: Trie, p: Path, keys: Path)
    requires WellFormed(c) && p + keys in c
    ensures p in c
    ensures keys != [] ==> Child(p, keys[0]) in c
    decreases |keys|
  {
    if keys == [] {
      assert p + keys == p;
    } else if |keys| == 1 {
      assert p + keys == Child(p, keys[0]);
    } else {
      var init := keys[..|keys| - 1];
      assert p + keys == Child(p + init, keys[|keys| - 1]);
      PrefixIsNode(c, p, init);
      assert init[0] == keys[0];
    }
  }

  /** `IsBest` among the candidates whose first key has at least this rank. */
  ghost predicate IsBestFrom(c: Trie, opts: Options, p: Path, segments: seq<string>, params: Params, r: Search,
                             rank: nat) {
    match r
    case BadEncoding => false
    case Missing => forall keys | keys != [] && Rank(keys[0]) >= rank :: !Candidate(c, opts, p, segments, keys)
    case Found(path, bound) =>
      exists best :: best != [] && Rank(best[0]) >= rank
        && path == p + best && Candidate(c, opts, p, segments, best)
        && bound == Bindings(c, opts, p, best, segments, params)
        && forall keys | keys != [] && Rank(keys[0]) >= rank && Candidate(c, opts, p, segments, keys) && keys != best ::
             Precedes(best, keys)
  }

  /** A candidate for at least one segment starts with a key that matches it, or is the wildcard. */
  lemma CandidateStarts(c: Trie, opts: Options, p: Path, segments: seq<string>, keys: Path)
    requires WellFormed(c) && segments != [] && Candidate(c, opts, p, segments, keys)
    ensures keys != [] && Child(p, keys[0]) in c
    ensures keys[0] == Lit(segments[0]) || (keys[0] == Par && KeyMatches(opts, Par, segments[0])) || keys == [Wild]
  {
    PrefixIsNode(c, p, keys);
  }

  /** The result found below the child for `k`, seen from the parent, when the candidates through `k` come
      first among those of its rank. */
  lemma FoundInChild(c: Trie, opts: Options, p: Path, k: Key, segments: seq<string>, params: Params,
                     bound: Params, sub: Search)
    requires WellFormed(c) && segments != [] && k != Wild && KeyMatches(opts, k, segments[0])
    requires bound == if k == Par
                      then params[NameAt(c, Child(p, k)) := Given(OrElse(Decoded(opts, segments[0]), ""))] else params
    requires IsBest(c, opts, Child(p, k), segments[1..], bound, sub) && sub.Found?
    ensures IsBestFrom(c, opts, p, segments, params, sub, Rank(k))
  {
    var q := Child(p, k);
    var b :| sub.path == q + b && Candidate(c, opts, q, segments[1..], b)
             && sub.params == Bindings(c, opts, q, b, segments[1..], bound)
             && forall keys | Candidate(c, opts, q, segments[1..], keys) && keys != b :: Precedes(b, keys);
    var best := [k] + b;
    assert best[1..] == b;
    CandidateOfChild(c, opts, p, segments, best);
    assert p + best == q + b;
    forall keys | keys != [] && Rank(keys[0]) >= Rank(k) && Candidate(c, opts, p, segments, keys) && keys != best
      ensures Precedes(best, keys)
    {
      CandidateStarts(c, opts, p, segments, keys);
      if keys[0] == k {
        CandidateOfChild(c, opts, p, segments, keys);
        assert keys == [k] + keys[1..];
      }
    }
    assert Rank(best[0]) >= Rank(k);
  }

  /** Nothing below the child for `k`, or no such child: the candidates are those of higher rank. */
  lemma NothingInChild(c: Trie, opts: Options, p: Path, k: Key, segments: seq<string>, params: Params, bound: Params,
                       r: Search)
    requires WellFormed(c) && segments != [] && k != Wild
    requires k == Lit(segments[0]) || k == Par
    requires Child(p, k) !in c || !KeyMatches(opts, k, segments[0])
             || IsBest(c, opts, Child(p, k), segments[1..], bound, Missing)
    requires IsBestFrom(c, opts, p, segments, params, r, Rank(k) + 1)
    ensures IsBestFrom(c, opts, p, segments, params, r, Rank(k))
  {
    forall keys | keys != [] && Rank(keys[0]) >= Rank(k) && Candidate(c, opts, p, segments, keys)
      ensures Rank(keys[0]) >= Rank(k) + 1
    {
      CandidateStarts(c, opts, p, segments, keys);
      if keys[0] == k { CandidateOfChild(c, opts, p, segments, keys); }
    }
    if r.Found? {
      var best :| best != [] && Rank(best[0]) >= Rank(k) + 1
        && r.path == p + best && Candidate(c, opts, p, segments, best)
        && r.params == Bindings(c, opts, p, best, segments, params)
        && forall keys | keys != [] && Rank(keys[0]) >= Rank(k) + 1 && Candidate(c, opts, p, segments, keys)
                         && keys != best ::
             Precedes(best, keys);
      assert Rank(best[0]) >= Rank(k);
    }
  }

  lemma WildIsBest(c: Trie, opts: Options, p: Path, segments: seq<string>, params: Params, lenient: bool)
    requires WellFormed(c) && segments != [] && Decodable(opts, segments)
    ensures IsBestFrom(c, opts, p, segments, params, FindWild(c, opts, p, segments, params, lenient), 2)
  {
    DecodableRemainder(opts, segments);
    assert p + [Wild] == Child(p, Wild);
    forall keys | keys != [] && Rank(keys[0]) >= 2 && Candidate(c, opts, p, segments, keys) ensures keys == [Wild] {
      CandidateStarts(c, opts, p, segments, keys);
    }
    if Child(p, Wild) in c {
      assert EndsWild(Child(p, Wild));
      assert Candidate(c, opts, p, segments, [Wild]);
      var bound := params["wildcard" := Given(Remainder(opts, segments).value)];
      assert bound == Bindings(c, opts, p, [Wild], segments, params);
      assert FindWild(c, opts, p, segments, params, lenient) == Found(p + [Wild], bound);
    }
  }

  lemma EndIsBest(c: Trie, opts: Options, p: Path, params: Params, lenient: bool)
    requires WellFormed(c)
    ensures IsBest(c, opts, p, [], params, Find(c, opts, p, [], params, lenient))
  {
    assert p + [] == p;
    assert p + [Wild] == Child(p, Wild);
    forall keys | Candidate(c, opts, p, [], keys) ensures keys == [] || keys == [Wild] {
      if keys != [] { assert keys[0] == Wild; }
    }
    assert Candidate(c, opts, p, [], []) <==> Registered(c, p);
    assert Candidate(c, opts, p, [], [Wild]) <==> Registered(c, Child(p, Wild));
    assert Bindings(c, opts, p, [], [], params) == params;
    assert Bindings(c, opts, p, [Wild], [], params) == params["wildcard" := Given("")];
  }

  /** The backtracking search below `p` finds the best candidate, and none exactly when there is none. */
  lemma {:induction false} FindIsBest(c: Trie, opts: Options, p: Path, segments: seq<string>, params: Params,
                                      lenient: bool)
    requires WellFormed(c) && p in c && !EndsWild(p) && Decodable(opts, segments)
    ensures IsBest(c, opts, p, segments, params, Find(c, opts, p, segments, params, lenient))
    decreases |segments|
  {
    hide IsBest, IsBestFrom, WellFormed, Registered, FindDynamic, FindWild;
    if segments == [] {
      EndIsBest(c, opts, p, params, lenient);
    } else {
      assert segments[0] in segments;
      var rest := segments[1..];
      forall s | s in rest ensures Decoded(opts, s).Some? { assert s in segments; }
      var d := Decoded(opts, segments[0]).value;
      var q := Child(p, Par);
      var bound := params[NameAt(c, q) := Given(d)];
      WildIsBest(c, opts, p, segments, params, lenient);
      if q in c && |d| <= opts.paramLength {
        FindIsBest(c, opts, q, rest, bound, lenient);
      }
      DynamicIsBest(c, opts, p, segments, params, lenient);
      var l := Child(p, Lit(segments[0]));
      if l in c { FindIsBest(c, opts, l, rest, params, lenient); }
      var sub := if l in c then Find(c, opts, l, rest, params, lenient) else Missing;
      NotBad(c, opts, l, rest, params, sub);
      if sub.Found? {
        FoundInChild(c, opts, p, Lit(segments[0]), segments, params, params, sub);
      } else {
        NothingInChild(c, opts, p, Lit(segments[0]), segments, params, params,
                       FindDynamic(c, opts, p, segments, params, lenient));
      }
      assert IsBestFrom(c, opts, p, segments, params, Find(c, opts, p, segments, params, lenient), 0);
      FromRankZero(c, opts, p, segments, params, Find(c, opts, p, segments, params, lenient));
    }
  }

  lemma DynamicIsBest(c: Trie, opts: Options, p: Path, segments: seq<string>, params: Params, lenient: bool)
    requires WellFormed(c) && segments != [] && Decoded(opts, segments[0]).Some?
    requires IsBestFrom(c, opts, p, segments, params, FindWild(c, opts, p, segments, params, lenient), 2)
    requires var q := Child(p, Par);
             var d := Decoded(opts, segments[0]).value;
             var bound := params[NameAt(c, q) := Given(d)];
             q in c && |d| <= opts.paramLength ==>
               IsBest(c, opts, q, segments[1..], bound, Find(c, opts, q, segments[1..], bound, lenient))
    ensures IsBestFrom(c, opts, p, segments, params, FindDynamic(c, opts, p, segments, params, lenient), 1)
  {
    hide IsBest, IsBestFrom, Find, FindWild;
    var q := Child(p, Par);
    var d := Decoded(opts, segments[0]).value;
    var bound := params[NameAt(c, q) := Given(d)];
    var sub := if q in c && |d| <= opts.paramLength then Find(c, opts, q, segments[1..], bound, lenient) else Missing;
    NotBad(c, opts, q, segments[1..], bound, sub);
    if sub.Found? {
      FoundInChild(c, opts, p, Par, segments, params, bound, sub);
    } else {
      NothingInChild(c, opts, p, Par, segments, params, bound, FindWild(c, opts, p, segments, params, lenient));
    }
  }

  lemma NotBad(c: Trie, opts: Options, p: Path, segments: seq<string>, params: Params, r: Search)
    ensures IsBest(c, opts, p, segments, params, r) ==> !r.BadEncoding?
  {
  }

  lemma FromRankZero(c: Trie, opts: Options, p: Path, segments: seq<string>, params: Params, r: Search)
    requires segments != [] && IsBestFrom(c, opts, p, segments, params, r, 0)
    ensures IsBest(c, opts, p, segments, params, r)
  {
    forall keys | Candidate(c, opts, p, segments, keys) ensures keys != [] {}
  }
}
