/** The analyses compute extreme solutions of their equations, on every graph. */
module SchemaLaws {
  import opened SchemaGraph

  // ----- search that cuts cycles ----------------------------------------------------------

  /** Depth-first evaluation of the equations, with false on a lazy node that is on the path already. */
  ghost predicate Proves(g: Graph, rule: Node -> Rule, id: Id, seen: set<Id>)
    requires id in g && Local(rule)
    decreases g.Keys - seen, id
  {
    if g[id].Lazy? then id !in seen && Proves(g, rule, g[id].target, seen + {id})
    else
      match rule(g[id])
      case Always => true
      case Never => false
      case AnyOf(cs) => exists i | 0 <= i < |cs| :: Proves(g, rule, cs[i], seen)
      case AllOf(cs) => forall i | 0 <= i < |cs| :: Proves(g, rule, cs[i], seen)
  }

  lemma RuleChild(g: Graph, rule: Node -> Rule, id: Id, i: nat)
    requires id in g && Local(rule) && (rule(g[id]).AnyOf? || rule(g[id]).AllOf?) && i < |rule(g[id]).children|
    ensures rule(g[id]).children[i] in g
    ensures !g[id].Lazy? ==> rule(g[id]).children[i] < id
  {
    assert rule(g[id]).children[i] in Children(g[id]);
  }

  /** `x` holds every node whose equation it satisfies. */
  ghost predicate Closed(g: Graph, rule: Node -> Rule, x: set<Id>) {
    forall id | id in g && Holds(rule(g[id]), x) :: id in x
  }

  /** What is proved is in every closed set. */
  lemma {:induction false} ProvesIsSound(g: Graph, rule: Node -> Rule, id: Id, seen: set<Id>, x: set<Id>)
    requires id in g && Local(rule) && Closed(g, rule, x) && Proves(g, rule, id, seen)
    ensures id in x
    decreases g.Keys - seen, id
  {
    var r := rule(g[id]);
    if g[id].Lazy? {
      ProvesIsSound(g, rule, g[id].target, seen + {id}, x);
      assert r.children[0] in x;
    } else if r.AnyOf? {
      var i :| 0 <= i < |r.children| && Proves(g, rule, r.children[i], seen);
      ProvesIsSound(g, rule, r.children[i], seen, x);
    } else if r.AllOf? {
      forall i | 0 <= i < |r.children| ensures r.children[i] in x {
        ProvesIsSound(g, rule, r.children[i], seen, x);
      }
    }
    assert Holds(r, x);
  }

  /** Nodes that become true within `n` rounds of evaluation from below. */
  ghost function Level(g: Graph, rule: Node -> Rule, n: nat): set<Id> {
    if n == 0 then {} else set id | id in g && Holds(rule(g[id]), Level(g, rule, n - 1))
  }

  lemma HoldsMonotone(r: Rule, x: set<Id>, y: set<Id>)
    requires x <= y && Holds(r, x)
    ensures Holds(r, y)
  {
    if r.AnyOf? {
      var i :| 0 <= i < |r.children| && r.children[i] in x;
      assert r.children[i] in y;
    }
  }

  lemma {:induction false} LevelGrows(g: Graph, rule: Node -> Rule, n: nat)
    ensures Level(g, rule, n) <= Level(g, rule, n + 1)
  {
    if n > 0 {
      LevelGrows(g, rule, n - 1);
      forall id | id in Level(g, rule, n) ensures id in Level(g, rule, n + 1) {
        HoldsMonotone(rule(g[id]), Level(g, rule, n - 1), Level(g, rule, n));
      }
    }
  }

  lemma {:induction false} LevelMonotone(g: Graph, rule: Node -> Rule, m: nat, n: nat)
    requires m <= n
    ensures Level(g, rule, m) <= Level(g, rule, n)
    decreases n
  {
    if m < n {
      LevelMonotone(g, rule, m, n - 1);
      LevelGrows(g, rule, n - 1);
    }
  }

  /** Cutting cycles loses nothing: what is true within `n` rounds is proved, when the path holds no such node. */
  lemma {:induction false} ProvesIsComplete(g: Graph, rule: Node -> Rule, id: Id, seen: set<Id>, n: nat)
    requires id in g && Local(rule) && id in Level(g, rule, n) && seen !! Level(g, rule, n)
    ensures Proves(g, rule, id, seen)
    decreases n
  {
    hide *;
    LevelHolds(g, rule, id, n);
    LevelGrows(g, rule, n - 1);
    var before := Level(g, rule, n - 1);
    assert seen !! before;
    if g[id].Lazy? {
      LazyRule(g, rule, id, before);
      if id in before {
        ProvesIsComplete(g, rule, id, seen, n - 1);
      } else {
        ProvesIsComplete(g, rule, g[id].target, seen + {id}, n - 1);
        LazyProves(g, rule, id, seen);
      }
    } else {
      var r := rule(g[id]);
      forall i | HasChild(r, i) && r.children[i] in before
        ensures r.children[i] in g && Proves(g, rule, r.children[i], seen)
      {
        RuleChild(g, rule, id, i);
        ProvesIsComplete(g, rule, r.children[i], seen, n - 1);
      }
      ChildrenProve(g, rule, id, seen, before);
    }
  }

  ghost predicate HasChild(r: Rule, i: int)
    ensures HasChild(r, i) ==> (r.AnyOf? || r.AllOf?) && 0 <= i < |r.children|
  { (r.AnyOf? || r.AllOf?) && 0 <= i < |r.children| }

  lemma LazyProves(g: Graph, rule: Node -> Rule, id: Id, seen: set<Id>)
    requires id in g && Local(rule) && g[id].Lazy? && id !in seen && g[id].target in g
    requires Proves(g, rule, g[id].target, seen + {id})
    ensures Proves(g, rule, id, seen)
  {
  }

  /** An equation that holds in `x` is proved when the children in `x` are. */
  lemma ChildrenProve(g: Graph, rule: Node -> Rule, id: Id, seen: set<Id>, x: set<Id>)
    requires id in g && Local(rule) && !g[id].Lazy? && Holds(rule(g[id]), x)
    requires var r := rule(g[id]);
             forall i | HasChild(r, i) && r.children[i] in x ::
               r.children[i] in g && Proves(g, rule, r.children[i], seen)
    ensures Proves(g, rule, id, seen)
  {
    var r := rule(g[id]);
    if r.AnyOf? {
      var i :| 0 <= i < |r.children| && r.children[i] in x;
      assert HasChild(r, i);
    } else if r.AllOf? {
      forall i | 0 <= i < |r.children| ensures Proves(g, rule, r.children[i], seen) { assert HasChild(r, i); }
    }
  }

  lemma LevelHolds(g: Graph, rule: Node -> Rule, id: Id, n: nat)
    requires id in Level(g, rule, n)
    ensures n > 0 && id in g && Holds(rule(g[id]), Level(g, rule, n - 1))
  {
  }

  /** The equation at a lazy node is that of its target. */
  lemma LazyRule(g: Graph, rule: Node -> Rule, id: Id, x: set<Id>)
    requires id in g && g[id].Lazy? && Local(rule)
    ensures g[id].target in g
    ensures Holds(rule(g[id]), x) <==> g[id].target in x
  {
    var r := rule(g[id]);
    assert r.children == [g[id].target];
    assert g[id].target in Children(g[id]);
    assert r.children[0] == g[id].target;
  }

  /** Nodes that become true in some round. */
  ghost predicate Derived(g: Graph, rule: Node -> Rule, id: Id) {
    exists n: nat :: id in Level(g, rule, n)
  }

  lemma {:induction false} CommonLevel(g: Graph, rule: Node -> Rule, cs: seq<Id>) returns (n: nat)
    requires forall i | 0 <= i < |cs| :: Derived(g, rule, cs[i])
    ensures forall i | 0 <= i < |cs| :: cs[i] in Level(g, rule, n)
  {
    if cs == [] {
      n := 0;
    } else {
      assert Derived(g, rule, cs[0]);
      var a: nat :| cs[0] in Level(g, rule, a);
      forall i | 0 <= i < |cs[1..]| ensures Derived(g, rule, cs[1..][i]) {
        assert cs[1..][i] == cs[i + 1];
      }
      var b := CommonLevel(g, rule, cs[1..]);
      n := if a < b then b else a;
      LevelMonotone(g, rule, a, n);
      LevelMonotone(g, rule, b, n);
      forall i | 0 <= i < |cs| ensures cs[i] in Level(g, rule, n) {
        if i > 0 { assert cs[i] == cs[1..][i - 1]; }
      }
    }
  }

  ghost function DerivedSet(g: Graph, rule: Node -> Rule): set<Id> {
    set id | id in g && Derived(g, rule, id)
  }

  lemma DerivedIsClosed(g: Graph, rule: Node -> Rule)
    requires Local(rule)
    ensures Closed(g, rule, DerivedSet(g, rule))
  {
    var x := DerivedSet(g, rule);
    forall id | id in g && Holds(rule(g[id]), x) ensures id in x {
      var r := rule(g[id]);
      var n: nat := 0;
      if r.AnyOf? {
        var i :| 0 <= i < |r.children| && r.children[i] in x;
        assert Derived(g, rule, r.children[i]);
        n :| r.children[i] in Level(g, rule, n);
      } else if r.AllOf? {
        n := CommonLevel(g, rule, r.children);
      }
      assert Holds(r, Level(g, rule, n));
      assert id in Level(g, rule, n + 1);
    }
  }

  ghost function Proved(g: Graph, rule: Node -> Rule): set<Id>
    requires Local(rule)
  {
    set id | id in g && Proves(g, rule, id, {})
  }

  /** The search from an empty path proves exactly what is derived in some round. */
  lemma ProvedIsDerived(g: Graph, rule: Node -> Rule)
    requires Local(rule)
    ensures Proved(g, rule) == DerivedSet(g, rule)
  {
    DerivedIsClosed(g, rule);
    forall id | id in g ensures Proves(g, rule, id, {}) <==> Derived(g, rule, id) {
      if Proves(g, rule, id, {}) { ProvesIsSound(g, rule, id, {}, DerivedSet(g, rule)); }
      if Derived(g, rule, id) {
        var n: nat :| id in Level(g, rule, n);
        ProvesIsComplete(g, rule, id, {}, n);
      }
    }
  }

  lemma DerivedHolds(g: Graph, rule: Node -> Rule, id: Id)
    requires Local(rule) && id in DerivedSet(g, rule)
    ensures Holds(rule(g[id]), DerivedSet(g, rule))
  {
    var n: nat :| id in Level(g, rule, n);
    assert Level(g, rule, n - 1) <= DerivedSet(g, rule);
    HoldsMonotone(rule(g[id]), Level(g, rule, n - 1), DerivedSet(g, rule));
  }

  /** The search computes the least solution. */
  lemma ProvedIsLeast(g: Graph, rule: Node -> Rule)
    requires Local(rule)
    ensures IsLeast(g, rule, Proved(g, rule))
  {
    ProvedIsDerived(g, rule);
    DerivedIsClosed(g, rule);
    var x := Proved(g, rule);
    forall id | id in g ensures id in x <==> Holds(rule(g[id]), x) {
      if id in x { DerivedHolds(g, rule, id); }
    }
    forall y | Solves(g, rule, y) ensures x <= y {
      forall id | id in x ensures id in y {
        ProvesIsSound(g, rule, id, {}, y);
      }
    }
  }

  // ----- the analyses are such searches ---------------------------------------------------

  lemma RulesAreLocal()
    ensures Local(InputRule) && Local(NullRule) && Local(RefuteRule)
  {
  }

  lemma OneChild(g: Graph, rule: Node -> Rule, id: Id, seen: set<Id>, c: Id)
    requires id in g && Local(rule) && !g[id].Lazy?
    requires rule(g[id]) == AnyOf([c]) || rule(g[id]) == AllOf([c])
    ensures c in g
    ensures Proves(g, rule, id, seen) <==> Proves(g, rule, c, seen)
  {
    RuleChild(g, rule, id, 0);
    var cs := rule(g[id]).children;
    assert cs[0] == c;
    assert Proves(g, rule, cs[0], seen) <==> Proves(g, rule, c, seen);
  }

  lemma {:induction false} InputIsSearch(g: Graph, id: Id, seen: set<Id>)
    requires id in g && Local(InputRule)
    ensures InputUndef(g, id, seen) <==> Proves(g, InputRule, id, seen)
    decreases g.Keys - seen, id
  {
    var r := InputRule(g[id]);
    if g[id].Lazy? {
      if id !in seen { InputIsSearch(g, g[id].target, seen + {id}); }
    } else if r.AnyOf? {
      forall i | 0 <= i < |r.children|
        ensures r.children[i] in g
        ensures InputUndef(g, r.children[i], seen) <==> Proves(g, InputRule, r.children[i], seen)
      {
        RuleChild(g, InputRule, id, i);
        InputIsSearch(g, r.children[i], seen);
      }
      if !g[id].Union? { OneChild(g, InputRule, id, seen, r.children[0]); }
    }
  }

  lemma {:induction false} NullIsSearch(g: Graph, id: Id, seen: set<Id>)
    requires id in g && Local(NullRule)
    ensures NullAccepting(g, id, seen) <==> Proves(g, NullRule, id, seen)
    decreases g.Keys - seen, id
  {
    var r := NullRule(g[id]);
    if g[id].Lazy? {
      if id !in seen { NullIsSearch(g, g[id].target, seen + {id}); }
    } else if r.AnyOf? {
      forall i | 0 <= i < |r.children|
        ensures r.children[i] in g
        ensures NullAccepting(g, r.children[i], seen) <==> Proves(g, NullRule, r.children[i], seen)
      {
        RuleChild(g, NullRule, id, i);
        NullIsSearch(g, r.children[i], seen);
      }
      if !g[id].Union? { OneChild(g, NullRule, id, seen, r.children[0]); }
    }
  }

  function RefuteRule(n: Node): Rule { Negated(OutputRule(n)) }

  lemma {:induction false} OutputIsSearch(g: Graph, id: Id, seen: set<Id>)
    requires id in g && Local(RefuteRule)
    ensures OutputUndef(g, id, seen) <==> !Proves(g, RefuteRule, id, seen)
    decreases g.Keys - seen, id
  {
    var r := RefuteRule(g[id]);
    if g[id].Lazy? {
      if id !in seen { OutputIsSearch(g, g[id].target, seen + {id}); }
    } else if r.AllOf? {
      forall i | 0 <= i < |r.children|
        ensures r.children[i] in g
        ensures OutputUndef(g, r.children[i], seen) <==> !Proves(g, RefuteRule, r.children[i], seen)
      {
        RuleChild(g, RefuteRule, id, i);
        OutputIsSearch(g, r.children[i], seen);
      }
      if !g[id].Union? { OneChild(g, RefuteRule, id, seen, r.children[0]); }
    }
  }

  lemma {:induction false} AcceptsIsSearch(g: Graph, id: Id, seen: set<Id>)
    requires id in g && Local(InputRule)
    ensures AcceptsUndefined(g, id, seen) <==> Proves(g, InputRule, id, seen)
    decreases g.Keys - seen, id
  {
    var r := InputRule(g[id]);
    if g[id].Lazy? {
      if id !in seen { AcceptsIsSearch(g, g[id].target, seen + {id}); }
    } else if r.AnyOf? {
      forall i | 0 <= i < |r.children|
        ensures r.children[i] in g
        ensures AcceptsUndefined(g, r.children[i], seen) <==> Proves(g, InputRule, r.children[i], seen)
      {
        RuleChild(g, InputRule, id, i);
        AcceptsIsSearch(g, r.children[i], seen);
      }
      if !g[id].Union? { OneChild(g, InputRule, id, seen, r.children[0]); }
    }
  }

  // ----- main results ---------------------------------------------------------------------

  ghost function InputSet(g: Graph): set<Id> { set id | id in g && InputUndef(g, id, {}) }
  ghost function NullSet(g: Graph): set<Id> { set id | id in g && NullAccepting(g, id, {}) }
  ghost function OutputSet(g: Graph): set<Id> { set id | id in g && OutputUndef(g, id, {}) }

  /** "Accepts undefined on input" is the least solution of its equations. */
  lemma InputUndefIsLeast(g: Graph)
    ensures IsLeast(g, InputRule, InputSet(g))
  {
    RulesAreLocal();
    forall id | id in g ensures InputUndef(g, id, {}) <==> Proves(g, InputRule, id, {}) { InputIsSearch(g, id, {}); }
    assert InputSet(g) == Proved(g, InputRule);
    ProvedIsLeast(g, InputRule);
  }

  /** "May be null" is the least solution of its equations. */
  lemma NullAcceptingIsLeast(g: Graph)
    ensures IsLeast(g, NullRule, NullSet(g))
  {
    RulesAreLocal();
    forall id | id in g ensures NullAccepting(g, id, {}) <==> Proves(g, NullRule, id, {}) { NullIsSearch(g, id, {}); }
    assert NullSet(g) == Proved(g, NullRule);
    ProvedIsLeast(g, NullRule);
  }

  lemma NegatedHolds(r: Rule, x: set<Id>, all: set<Id>)
    requires x <= all
    requires r.AnyOf? || r.AllOf? ==> forall i | 0 <= i < |r.children| :: r.children[i] in all
    ensures Holds(Negated(r), all - x) <==> !Holds(r, x)
  {
  }

  /** The complement of a solution solves the negated equations, and the other way round. */
  lemma ComplementSolves(g: Graph, x: set<Id>)
    requires x <= g.Keys && Local(RefuteRule)
    ensures Solves(g, OutputRule, x) <==> Solves(g, RefuteRule, g.Keys - x)
  {
    forall id | id in g ensures Holds(RefuteRule(g[id]), g.Keys - x) <==> !Holds(OutputRule(g[id]), x) {
      var r := OutputRule(g[id]);
      if r.AnyOf? {
        forall i | 0 <= i < |r.children| ensures r.children[i] in g { RuleChild(g, RefuteRule, id, i); }
      }
      NegatedHolds(r, x, g.Keys);
    }
  }

  /** "Output may be undefined" is the greatest solution of its equations: a cycle counts as possibly undefined. */
  lemma OutputUndefIsGreatest(g: Graph)
    ensures IsGreatest(g, OutputRule, OutputSet(g))
  {
    RulesAreLocal();
    var x, no := OutputSet(g), Proved(g, RefuteRule);
    forall id | id in g ensures OutputUndef(g, id, {}) <==> !Proves(g, RefuteRule, id, {}) {
      OutputIsSearch(g, id, {});
    }
    assert g.Keys - x == no;
    ProvedIsLeast(g, RefuteRule);
    ComplementSolves(g, x);
    forall y | Solves(g, OutputRule, y) ensures y <= x {
      ComplementSolves(g, y);
      assert no <= g.Keys - y;
    }
  }

  /** Both compilers agree on which inputs accept undefined. */
  lemma CompilersAgree(g: Graph, id: Id)
    requires id in g
    ensures AcceptsUndefined(g, id, {}) <==> InputUndef(g, id, {})
  {
    RulesAreLocal();
    InputIsSearch(g, id, {});
    AcceptsIsSearch(g, id, {});
  }

  /** A type is non-null exactly when the extreme solutions hold neither undefined nor null of it. */
  lemma NonNullMeans(g: Graph, id: Id, input: set<Id>, output: set<Id>, nulls: set<Id>)
    requires id in g
    requires IsLeast(g, InputRule, input) && IsGreatest(g, OutputRule, output) && IsLeast(g, NullRule, nulls)
    ensures NonNull(g, id, Input) <==> id !in input && id !in nulls
    ensures NonNull(g, id, Output) <==> id !in output && id !in nulls
  {
    InputUndefIsLeast(g);
    OutputUndefIsGreatest(g);
    NullAcceptingIsLeast(g);
    assert input == InputSet(g) && output == OutputSet(g) && nulls == NullSet(g);
  }

  /**
   What every kind of node does to being non-null: wrapping in `Optional` or `Nullable` takes it away on both sides,
   `Default` on the input side only, `Transform` on the output side only; refinements and lazy nodes pass it on, and a
   union has it exactly when all variants have it.
   */
  lemma NonNullByKind(g: Graph, id: Id, side: Side)
    requires id in g
    ensures match g[id]
            case Optional(_) => !NonNull(g, id, side)
            case Nullable(_) => !NonNull(g, id, side)
            case Default(inner) => inner in g && (NonNull(g, id, side) <==> side == Output && NonNull(g, inner, side))
            case Transform(inner) => inner in g && (NonNull(g, id, side) <==> side == Input && NonNull(g, inner, side))
            case Refine(inner) => inner in g && (NonNull(g, id, side) <==> NonNull(g, inner, side))
            case Lazy(target) => target in g && (NonNull(g, id, side) <==> NonNull(g, target, side))
            case Union(variants) =>
              && (forall i | 0 <= i < |variants| :: variants[i] in g)
              && (NonNull(g, id, side) <==> forall i | 0 <= i < |variants| :: NonNull(g, variants[i], side))
            case AnyNode => !NonNull(g, id, side)
            case UnknownNode => !NonNull(g, id, side)
            case UndefinedNode => !NonNull(g, id, side)
            case NullNode => !NonNull(g, id, side)
            case LiteralNode(value) => NonNull(g, id, side) <==> value == LiteralOther
            case _ => NonNull(g, id, side)
  {
    forall c | c in Children(g[id]) ensures c in g {}
    InputUndefIsLeast(g);
    OutputUndefIsGreatest(g);
    NullAcceptingIsLeast(g);
    if g[id].Union? {
      forall i | 0 <= i < |g[id].variants| ensures g[id].variants[i] in g {
        assert g[id].variants[i] in Children(g[id]);
      }
    }
    hide IsLeast, IsGreatest;
    SolvedAt(g, InputRule, InputSet(g), id);
    SolvedAt(g, OutputRule, OutputSet(g), id);
    SolvedAt(g, NullRule, NullSet(g), id);
    hide InputUndef, OutputUndef, NullAccepting;
    if g[id].Union? { AllNonNull(g, g[id].variants, side); }
    if g[id].Lazy? {
      assert g[id].target in Children(g[id]);
      OneHolds(g[id].target, InputSet(g));
      OneHolds(g[id].target, OutputSet(g));
      OneHolds(g[id].target, NullSet(g));
    }
  }

  lemma OneHolds(c: Id, x: set<Id>)
    ensures Holds(AnyOf([c]), x) <==> c in x
  {
    assert [c][0] == c;
  }

  lemma AllNonNull(g: Graph, ids: seq<Id>, side: Side)
    requires forall i | 0 <= i < |ids| :: ids[i] in g
    ensures (forall i | 0 <= i < |ids| :: NonNull(g, ids[i], side)) <==>
            !Holds(AnyOf(ids), if side == Input then InputSet(g) else OutputSet(g)) && !Holds(AnyOf(ids), NullSet(g))
  {
    hide InputUndef, OutputUndef, NullAccepting;
    forall i | 0 <= i < |ids|
      ensures NonNull(g, ids[i], side) <==>
              ids[i] !in (if side == Input then InputSet(g) else OutputSet(g)) && ids[i] !in NullSet(g)
    {
    }
  }

  lemma SolvedAt(g: Graph, rule: Node -> Rule, x: set<Id>, id: Id)
    requires (IsLeast(g, rule, x) || IsGreatest(g, rule, x)) && id in g
    ensures id in x <==> Holds(rule(g[id]), x)
  {
  }

  /** Without defaults, what is required on the output side is required on the input side. */
  lemma OutputRequiredIsInputRequired(g: Graph, id: Id)
    requires id in g && forall k | k in g :: !g[k].Default?
    ensures NonNull(g, id, Output) ==> NonNull(g, id, Input)
  {
    RulesAreLocal();
    OutputUndefIsGreatest(g);
    var x := OutputSet(g);
    assert Closed(g, InputRule, x);
    if InputUndef(g, id, {}) {
      InputIsSearch(g, id, {});
      ProvesIsSound(g, InputRule, id, {}, x);
    }
  }
}
