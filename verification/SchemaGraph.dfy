/** Schema graphs, cyclic through lazy nodes, and the static analyses that the SDL and OpenAPI compilers run on them. */
module SchemaGraph {

  type Id = nat

  datatype Literal = LiteralUndefined | LiteralNull | LiteralOther

  /** A schema node; children are named by their ids. `Scalar` stands for boolean, bigint, date and enum. */
  datatype Node =
    | StringNode(bare: bool) | NumberNode | Scalar
    | AnyNode | UnknownNode | UndefinedNode | NullNode | NeverNode
    | LiteralNode(value: Literal)
    | Object(fields: seq<(string, Id)>) | Array(element: Id) | Tuple(items: seq<Id>) | Record(keys: Id, values: Id)
    | Union(variants: seq<Id>) | Discriminated(cases: seq<(string, Id)>) | Intersection(left: Id, right: Id)
    | Optional(inner: Id) | Nullable(inner: Id) | Default(inner: Id) | Transform(inner: Id) | Refine(inner: Id)
    | Lazy(target: Id)

  function Seconds<T>(s: seq<(string, T)>): (r: seq<T>)
    ensures |r| == |s| && forall i | 0 <= i < |s| :: r[i] == s[i].1
  {
    seq(|s|, i requires 0 <= i < |s| => s[i].1)
  }

  function Children(n: Node): seq<Id> {
    match n
    case Object(fields) => Seconds(fields)
    case Array(e) => [e]
    case Tuple(items) => items
    case Record(keys, values) => [keys, values]
    case Union(variants) => variants
    case Discriminated(cases) => Seconds(cases)
    case Intersection(l, r) => [l, r]
    case Optional(inner) => [inner]
    case Nullable(inner) => [inner]
    case Default(inner) => [inner]
    case Transform(inner) => [inner]
    case Refine(inner) => [inner]
    case Lazy(target) => [target]
    case _ => []
  }

  /** Nodes are immutable values built from existing ones, so a child is older than its parent; only a lazy node may
      name any node. Ids count in order of creation. */
  ghost predicate WellFormed(g: map<Id, Node>) {
    forall id, c | id in g && c in Children(g[id]) :: c in g && (c < id || g[id].Lazy?)
  }

  type Graph = g: map<Id, Node> | WellFormed(g) witness map[]

  // ----- the analyses ---------------------------------------------------------------------

  /** "Accepts undefined on input", of the SDL compiler. `seen` holds the lazy nodes on the path. */
  predicate InputUndef(g: Graph, id: Id, seen: set<Id>)
    requires id in g
    decreases g.Keys - seen, id
  {
    var n := g[id];
    match n
    case Optional(_) => true
    case Default(_) => true
    case AnyNode => true
    case UnknownNode => true
    case UndefinedNode => true
    case LiteralNode(value) => value == LiteralUndefined
    case NullNode => false
    case NeverNode => false
    case Nullable(inner) => InputUndef(g, inner, seen)
    case Refine(inner) => InputUndef(g, inner, seen)
    case Transform(inner) => InputUndef(g, inner, seen)
    case Union(variants) => exists i | 0 <= i < |variants| :: InputUndef(g, variants[i], seen)
    case Lazy(target) => if id in seen then false else InputUndef(g, target, seen + {id})
    case _ => false
  }

  /** "Output may be undefined". */
  predicate OutputUndef(g: Graph, id: Id, seen: set<Id>)
    requires id in g
    decreases g.Keys - seen, id
  {
    var n := g[id];
    match n
    case Optional(_) => true
    case AnyNode => true
    case UnknownNode => true
    case UndefinedNode => true
    case LiteralNode(value) => value == LiteralUndefined
    case NullNode => false
    case NeverNode => false
    case Default(inner) => OutputUndef(g, inner, seen)
    case Nullable(inner) => OutputUndef(g, inner, seen)
    case Refine(inner) => OutputUndef(g, inner, seen)
    case Transform(_) => true
    case Union(variants) => exists i | 0 <= i < |variants| :: OutputUndef(g, variants[i], seen)
    case Lazy(target) => if id in seen then true else OutputUndef(g, target, seen + {id})
    case _ => false
  }

  /** "May be null". */
  predicate NullAccepting(g: Graph, id: Id, seen: set<Id>)
    requires id in g
    decreases g.Keys - seen, id
  {
    var n := g[id];
    match n
    case Nullable(_) => true
    case NullNode => true
    case LiteralNode(value) => value == LiteralNull
    case NeverNode => false
    case Optional(inner) => NullAccepting(g, inner, seen)
    case Default(inner) => NullAccepting(g, inner, seen)
    case Refine(inner) => NullAccepting(g, inner, seen)
    case Transform(inner) => NullAccepting(g, inner, seen)
    case Union(variants) => exists i | 0 <= i < |variants| :: NullAccepting(g, variants[i], seen)
    case Lazy(target) => if id in seen then false else NullAccepting(g, target, seen + {id})
    case _ => false
  }

  datatype Side = Input | Output

  predicate NonNull(g: Graph, id: Id, side: Side)
    requires id in g
  {
    var undef := if side == Input then InputUndef(g, id, {}) else OutputUndef(g, id, {});
    !undef && !NullAccepting(g, id, {})
  }

  /** "Accepts undefined", of the OpenAPI compiler. */
  predicate AcceptsUndefined(g: Graph, id: Id, seen: set<Id>)
    requires id in g
    decreases g.Keys - seen, id
  {
    var n := g[id];
    match n
    case Optional(_) => true
    case Default(_) => true
    case AnyNode => true
    case UnknownNode => true
    case UndefinedNode => true
    case LiteralNode(value) => value == LiteralUndefined
    case Nullable(inner) => AcceptsUndefined(g, inner, seen)
    case Refine(inner) => AcceptsUndefined(g, inner, seen)
    case Transform(inner) => AcceptsUndefined(g, inner, seen)
    case Union(variants) => exists i | 0 <= i < |variants| :: AcceptsUndefined(g, variants[i], seen)
    case Lazy(target) => if id in seen then false else AcceptsUndefined(g, target, seen + {id})
    case _ => false
  }

  // ----- the equations --------------------------------------------------------------------

  /** When a node has a property: always, never, when some of its children do, or when all do. */
  datatype Rule = Always | Never | AnyOf(children: seq<Id>) | AllOf(children: seq<Id>)

  function InputRule(n: Node): Rule {
    match n
    case Optional(_) => Always
    case Default(_) => Always
    case AnyNode => Always
    case UnknownNode => Always
    case UndefinedNode => Always
    case LiteralNode(value) => if value == LiteralUndefined then Always else Never
    case Nullable(inner) => AnyOf([inner])
    case Refine(inner) => AnyOf([inner])
    case Transform(inner) => AnyOf([inner])
    case Union(variants) => AnyOf(variants)
    case Lazy(target) => AnyOf([target])
    case _ => Never
  }

  function NullRule(n: Node): Rule {
    match n
    case Nullable(_) => Always
    case NullNode => Always
    case LiteralNode(value) => if value == LiteralNull then Always else Never
    case Optional(inner) => AnyOf([inner])
    case Default(inner) => AnyOf([inner])
    case Refine(inner) => AnyOf([inner])
    case Transform(inner) => AnyOf([inner])
    case Union(variants) => AnyOf(variants)
    case Lazy(target) => AnyOf([target])
    case _ => Never
  }

  function OutputRule(n: Node): Rule {
    match n
    case Optional(_) => Always
    case AnyNode => Always
    case UnknownNode => Always
    case UndefinedNode => Always
    case Transform(_) => Always
    case LiteralNode(value) => if value == LiteralUndefined then Always else Never
    case Default(inner) => AnyOf([inner])
    case Nullable(inner) => AnyOf([inner])
    case Refine(inner) => AnyOf([inner])
    case Union(variants) => AnyOf(variants)
    case Lazy(target) => AnyOf([target])
    case _ => Never
  }

  /** When a node lacks a property that `r` gives. */
  function Negated(r: Rule): Rule {
    match r
    case Always => Never
    case Never => Always
    case AnyOf(cs) => AllOf(cs)
    case AllOf(cs) => AnyOf(cs)
  }

  /** The equation at one node, in the valuation that makes the nodes in `x` true. */
  ghost predicate Holds(r: Rule, x: set<Id>) {
    match r
    case Always => true
    case Never => false
    case AnyOf(cs) => exists i | 0 <= i < |cs| :: cs[i] in x
    case AllOf(cs) => forall i | 0 <= i < |cs| :: cs[i] in x
  }

  /** `x` solves all equations. */
  ghost predicate Solves(g: Graph, rule: Node -> Rule, x: set<Id>) {
    x <= g.Keys && forall id | id in g :: id in x <==> Holds(rule(g[id]), x)
  }

  ghost predicate IsLeast(g: Graph, rule: Node -> Rule, x: set<Id>) {
    Solves(g, rule, x) && forall y | Solves(g, rule, y) :: x <= y
  }

  ghost predicate IsGreatest(g: Graph, rule: Node -> Rule, x: set<Id>) {
    Solves(g, rule, x) && forall y | Solves(g, rule, y) :: y <= x
  }

  /** A rule that looks at children only, and looks through a lazy node. */
  ghost predicate Local(rule: Node -> Rule) {
    forall n ::
      && (rule(n).AnyOf? || rule(n).AllOf? ==> forall c | c in rule(n).children :: c in Children(n))
      && (n.Lazy? ==> (rule(n).AnyOf? || rule(n).AllOf?) && rule(n).children == [n.target])
  }
}
