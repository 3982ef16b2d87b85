/** Laws of the conversion: when it throws, and where its references lead. */
module OpenApiLaws {
  import opened SchemaGraph
  import opened OpenApi
  import opened Walks
  import opened Lists

  // ----- recursion ------------------------------------------------------------------------

  /** The nodes that the conversion visits from a node. */
  ghost function Following(g: Graph, version: Version): Id -> seq<Id> {
    id => if id in g then Visited(g, version, id) else []
  }

  /** A path of the conversion: every node is visited from the one before it, and only the first may be registered. */
  ghost predicate Route(g: Graph, defs: Defs, version: Version, p: seq<Id>) {
    && Walk(Following(g, version), p)
    && (forall i | 0 <= i < |p| :: p[i] in g)
    && (forall i | 0 < i < |p| :: p[i] !in defs)
  }

  /** The path ends in a node that is active or occurred on it before. */
  ghost predicate Stops(p: seq<Id>, active: seq<Id>) { p != [] && (p[|p| - 1] in active || Closes(p)) }

  lemma {:induction false} SomeChildThrows(g: Graph, defs: Defs, version: Version, ids: seq<Id>, active: seq<Id>,
                                           i: nat)
    requires (forall id | id in ids :: id in g) && (forall a | a in active :: a in g)
    requires i < |ids| && Converted(g, defs, version, ids[i], active, false).Err?
    ensures ConvertedAll(g, defs, version, ids, active).Err?
    decreases |ids|
  {
    hide Converted;
    if i > 0 {
      assert ids[1..][i - 1] == ids[i];
      SomeChildThrows(g, defs, version, ids[1..], active, i - 1);
    }
  }

  lemma {:induction false} ThrowingChild(g: Graph, defs: Defs, version: Version, ids: seq<Id>, active: seq<Id>)
    returns (i: nat)
    requires (forall id | id in ids :: id in g) && (forall a | a in active :: a in g)
    requires ConvertedAll(g, defs, version, ids, active).Err?
    ensures i < |ids| && Converted(g, defs, version, ids[i], active, false).Err?
    decreases |ids|
  {
    hide Converted;
    i := 0;
    if Converted(g, defs, version, ids[0], active, false).Ok? {
      var k := ThrowingChild(g, defs, version, ids[1..], active);
      assert ids[1..][k] == ids[k + 1];
      i := k + 1;
    }
  }

  lemma OneStep(g: Graph, defs: Defs, version: Version, id: Id, active: seq<Id>, isRoot: bool)
    requires id in g && (forall a | a in active :: a in g) && (isRoot || id !in defs)
    ensures Converted(g, defs, version, id, active, isRoot).Err? <==>
            id in active || ConvertedAll(g, defs, version, Visited(g, version, id), active + [id]).Err?
  {
    hide Visited;
  }

  lemma {:induction false} WalkThrows(g: Graph, defs: Defs, version: Version, active: seq<Id>, isRoot: bool, p: seq<Id>)
    requires Route(g, defs, version, p) && Stops(p, active) && (forall a | a in active :: a in g)
    requires isRoot || p[0] !in defs
    ensures Converted(g, defs, version, p[0], active, isRoot).Err?
    decreases |p|
  {
    hide *;
    RouteInGraph(g, defs, version, p);
    OneStep(g, defs, version, p[0], active, isRoot);
    if p[0] !in active {
      var rest := p[1..];
      ShorterRoute(g, defs, version, active, p);
      WalkThrows(g, defs, version, active + [p[0]], false, rest);
      var ids := Visited(g, version, p[0]);
      var i :| 0 <= i < |ids| && ids[i] == p[1];
      SomeChildThrows(g, defs, version, ids, active + [p[0]], i);
    }
  }

  lemma RouteInGraph(g: Graph, defs: Defs, version: Version, p: seq<Id>)
    requires Route(g, defs, version, p)
    ensures p != [] && forall i | 0 <= i < |p| :: p[i] in g
  {
    hide Visited;
  }

  lemma MakesRoute(g: Graph, defs: Defs, version: Version, p: seq<Id>)
    requires Walk(Following(g, version), p)
    requires (forall i | 0 <= i < |p| :: p[i] in g) && forall i | 0 < i < |p| :: p[i] !in defs
    ensures Route(g, defs, version, p)
  {
    hide Walk, Following, Visited;
  }

  lemma ShorterRoute(g: Graph, defs: Defs, version: Version, active: seq<Id>, p: seq<Id>)
    requires Route(g, defs, version, p) && Stops(p, active) && p[0] !in active
    ensures |p| > 1 && p[0] in g && p[1] in Visited(g, version, p[0]) && p[1] !in defs
    ensures Route(g, defs, version, p[1..]) && Stops(p[1..], active + [p[0]])
  {
    StopsLater(active, p);
    RouteInGraph(g, defs, version, p);
    RouteIsUnregistered(g, defs, version, p);
    RouteStep(g, defs, version, p, 0);
    assert Walk(Following(g, version), p) by { hide Visited; }
    hide *;
    WalkTail(Following(g, version), p, 1);
    MakesRoute(g, defs, version, p[1..]);
  }

  lemma StopsLater(active: seq<Id>, p: seq<Id>)
    requires Stops(p, active) && p[0] !in active
    ensures |p| > 1 && Stops(p[1..], active + [p[0]])
  {
    ClosesBehind(p);
  }

  lemma RouteStep(g: Graph, defs: Defs, version: Version, p: seq<Id>, i: nat)
    requires Route(g, defs, version, p) && i < |p| - 1
    ensures p[i] in g && p[i + 1] in Visited(g, version, p[i]) && p[i + 1] !in defs
  {
    hide Visited;
  }

  lemma {:induction false} ThrowsWalk(g: Graph, defs: Defs, version: Version, id: Id, active: seq<Id>, isRoot: bool)
    returns (p: seq<Id>)
    requires id in g && (forall a | a in active :: a in g)
    requires Converted(g, defs, version, id, active, isRoot).Err?
    ensures Route(g, defs, version, p) && Stops(p, active) && p[0] == id && (isRoot || id !in defs)
    decreases g.Keys - Elements(active)
  {
    p := [id];
    if id !in active {
      var ids := Visited(g, version, id);
      OneStep(g, defs, version, id, active, isRoot);
      hide Converted, ConvertedAll, Visited, Route, Stops;
      var i := ThrowingChild(g, defs, version, ids, active + [id]);
      Shrinks(g, id, active);
      var rest := ThrowsWalk(g, defs, version, ids[i], active + [id], false);
      p := [id] + rest;
      LongerWalk(g, defs, version, id, active, rest);
    }
  }

  lemma Shrinks(g: Graph, id: Id, active: seq<Id>)
    requires id in g && id !in active
    ensures g.Keys - Elements(active + [id]) < g.Keys - Elements(active)
  {
    assert id in g.Keys - Elements(active) && id !in g.Keys - Elements(active + [id]);
  }

  lemma LongerWalk(g: Graph, defs: Defs, version: Version, id: Id, active: seq<Id>, rest: seq<Id>)
    requires id in g && Route(g, defs, version, rest) && rest[0] in Visited(g, version, id) && rest[0] !in defs
    requires Stops(rest, active + [id])
    ensures Route(g, defs, version, [id] + rest) && Stops([id] + rest, active)
  {
    RouteInGraph(g, defs, version, rest);
    RouteIsUnregistered(g, defs, version, rest);
    assert Following(g, version)(id) == Visited(g, version, id) && Walk(Following(g, version), rest);
    StopsBefore(id, active, rest);
    hide *;
    WalkBefore(Following(g, version), id, rest);
    MakesRoute(g, defs, version, [id] + rest);
  }

  lemma StopsBefore(id: Id, active: seq<Id>, rest: seq<Id>)
    requires Stops(rest, active + [id])
    ensures Stops([id] + rest, active)
  {
    ClosesBefore(id, rest);
    hide Closes;
    assert rest[|rest| - 1] in active + [id] ==> rest[|rest| - 1] in active || rest[|rest| - 1] == id;
  }

  /** Conversion throws exactly when a cycle without a registered node is reached along unregistered nodes: the
      nodes of the cycle are those behind the earlier occurrence of the last node. */
  lemma ThrowsExactly(g: Graph, defs: Defs, version: Version, root: Id)
    requires root in g
    ensures Converted(g, defs, version, root, [], true).Err?
            <==> exists p :: Route(g, defs, version, p) && p[0] == root && Stops(p, [])
  {
    if Converted(g, defs, version, root, [], true).Err? {
      var p := ThrowsWalk(g, defs, version, root, [], true);
    }
    if p :| Route(g, defs, version, p) && p[0] == root && Stops(p, []) {
      WalkThrows(g, defs, version, [], true, p);
    }
  }

  lemma VisitedAreChildren(g: Graph, version: Version, id: Id, c: Id)
    requires id in g && c in Visited(g, version, id)
    ensures c in Children(g[id])
  {
  }

  lemma {:induction false} Descends(g: Graph, defs: Defs, version: Version, p: seq<Id>, j: nat, k: nat)
    requires Route(g, defs, version, p) && j < k < |p| && p[j] !in defs
    requires forall id | id in g && g[id].Lazy? :: id in defs || g[id].target in defs
    ensures p[k] < p[j]
    decreases k
  {
    hide *;
    RouteStep(g, defs, version, p, k - 1);
    RouteIsUnregistered(g, defs, version, p);
    StepDescends(g, defs, version, p[k - 1], p[k]);
    if j < k - 1 { Descends(g, defs, version, p, j, k - 1); }
  }

  lemma RouteIsUnregistered(g: Graph, defs: Defs, version: Version, p: seq<Id>)
    requires Route(g, defs, version, p)
    ensures forall i | 0 < i < |p| :: p[i] !in defs
  {
    hide Visited;
  }

  lemma StepDescends(g: Graph, defs: Defs, version: Version, id: Id, c: Id)
    requires id in g && c in Visited(g, version, id) && id !in defs && c !in defs
    requires g[id].Lazy? ==> id in defs || g[id].target in defs
    ensures c < id
  {
    VisitedAreChildren(g, version, id, c);
    hide Visited;
  }

  /** When recursion always goes through a registered lazy node or target, nothing throws. */
  lemma RegisteredRecursionConverts(g: Graph, defs: Defs, version: Version, root: Id)
    requires root in g
    requires forall id | id in g && g[id].Lazy? :: id in defs || g[id].target in defs
    ensures Converted(g, defs, version, root, [], true).Ok?
  {
    hide *;
    if Converted(g, defs, version, root, [], true).Err? {
      var p := ThrowsWalk(g, defs, version, root, [], true);
      var j := StopsTwice(g, defs, version, p);
      Descends(g, defs, version, p, j, |p| - 1);
      assert false;
    }
  }

  lemma StopsTwice(g: Graph, defs: Defs, version: Version, p: seq<Id>) returns (j: nat)
    requires Route(g, defs, version, p) && Stops(p, [])
    ensures j < |p| - 1 && p[j] == p[|p| - 1] && p[j] !in defs
  {
    RouteIsUnregistered(g, defs, version, p);
    j :| 0 <= j < |p| - 1 && p[..|p| - 1][j] == p[|p| - 1];
  }

  // ----- references -----------------------------------------------------------------------

  /** The reference names an entry of the component table. */
  ghost predicate Names(reference: string, names: set<string>) {
    && SCHEMA_ROOT <= reference
    && Unescaped(reference[|SCHEMA_ROOT|..]).Some?
    && Unescaped(reference[|SCHEMA_ROOT|..]).value in names
  }

  /** Every reference in the schema names an entry: the `$ref`s and the targets of discriminator mappings. */
  ghost predicate RefsIn(o: Oas, names: set<string>) {
    match o
    case Ref(reference) => Names(reference, names)
    case Shape(_, parts, _, mapping) =>
      && (forall i | 0 <= i < |parts| :: RefsIn(parts[i], names))
      && (forall i | 0 <= i < |mapping| :: Names(mapping[i].1, names))
  }

  lemma RefToNames(name: string, names: set<string>)
    requires name in names
    ensures Names(RefTo(name), names)
  {
    EscapeReadsBack(name);
    assert RefTo(name)[|SCHEMA_ROOT|..] == EscapePointer(name);
  }

  lemma {:induction false} MappingNames(defs: Defs, cases: seq<(string, Id)>, names: set<string>)
    requires defs.Values <= names
    ensures forall i | 0 <= i < |MappingOf(defs, cases)| :: Names(MappingOf(defs, cases)[i].1, names)
  {
    hide Names;
    if cases != [] {
      MappingNames(defs, cases[1..], names);
      if cases[0].1 in defs { RefToNames(defs[cases[0].1], names); }
    }
  }

  /** Every reference that the conversion emits names a registered component. */
  lemma {:induction false} RefsAreClosed(g: Graph, defs: Defs, version: Version, id: Id, active: seq<Id>, isRoot: bool,
                                         names: set<string>)
    requires id in g && (forall a | a in active :: a in g) && defs.Values <= names
    ensures var r := Converted(g, defs, version, id, active, isRoot); r.Ok? ==> RefsIn(r.value, names)
    decreases g.Keys - Elements(active), 1, 0
  {
    hide Names, Visited;
    if !isRoot && id in defs {
      RefToNames(defs[id], names);
    } else if id !in active {
      assert id in g.Keys - Elements(active) && id !in g.Keys - Elements(active + [id]);
      AllRefsAreClosed(g, defs, version, Visited(g, version, id), active + [id], names);
      if g[id].Discriminated? { MappingNames(defs, g[id].cases, names); }
    }
  }

  lemma {:induction false} AllRefsAreClosed(g: Graph, defs: Defs, version: Version, ids: seq<Id>, active: seq<Id>,
                                            names: set<string>)
    requires (forall id | id in ids :: id in g) && (forall a | a in active :: a in g) && defs.Values <= names
    ensures var r := ConvertedAll(g, defs, version, ids, active);
            r.Ok? ==> forall i | 0 <= i < |r.value| :: RefsIn(r.value[i], names)
    decreases g.Keys - Elements(active), 2, |ids|
  {
    hide Names, Converted, RefsIn;
    if ids != [] {
      RefsAreClosed(g, defs, version, ids[0], active, false, names);
      AllRefsAreClosed(g, defs, version, ids[1..], active, names);
      var r, rest := ConvertedAll(g, defs, version, ids, active), ConvertedAll(g, defs, version, ids[1..], active);
      if r.Ok? {
        forall i | 0 <= i < |r.value| ensures RefsIn(r.value[i], names) {
          if i > 0 { assert r.value[i] == rest.value[i - 1]; }
          else { assert r.value[0] == Converted(g, defs, version, ids[0], active, false).value; }
        }
      }
    }
  }

  // ----- documents ------------------------------------------------------------------------

  lemma {:induction false} DefsAreEntries(all: Entries)
    ensures forall n | n in DefsOf(all).Values :: n in Keys(all)
  {
    if all != [] {
      var init := all[..|all| - 1];
      DefsAreEntries(init);
      forall n | n in DefsOf(all).Values ensures n in Keys(all) {
        if n in DefsOf(init).Values {
          var i :| 0 <= i < |init| && Keys(init)[i] == n;
          assert Keys(all)[i] == n;
        } else {
          assert Keys(all)[|all| - 1] == n;
        }
      }
    }
  }

  /** Every reference emitted into a document leads to an entry of its component table. */
  lemma DocumentRefsAreClosed(g: Graph, version: Version, all: Entries, i: nat)
    requires NodesIn(g, all) && i < |all|
    ensures var c := ComponentOf(g, DefsOf(all), version, all[i].1);
            c.Ok? && c.value.Generated? ==> RefsIn(c.value.schema, set n | n in Keys(all))
  {
    DefsAreEntries(all);
    if all[i].1.SchemaOf? {
      RefsAreClosed(g, DefsOf(all), version, all[i].1.node, [], true, set n | n in Keys(all));
    }
  }
}
