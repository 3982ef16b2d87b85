/** What stands in a converted schema: its properties in order, its required names, its discriminator mapping. */
module OpenApiShape {
  import opened Results
  import opened Lists
  import opened SchemaGraph
  import opened SchemaLaws
  import opened OpenApi
  import opened OpenApiLaws

  // ----- children -------------------------------------------------------------------------

  lemma {:induction false} PartsAreConverted(g: Graph, defs: Defs, version: Version, ids: seq<Id>, active: seq<Id>)
    requires (forall id | id in ids :: id in g) && (forall a | a in active :: a in g)
    requires ConvertedAll(g, defs, version, ids, active).Ok?
    ensures var parts := ConvertedAll(g, defs, version, ids, active).value;
            && |parts| == |ids|
            && forall i | 0 <= i < |ids| :: Converted(g, defs, version, ids[i], active, false) == Ok(parts[i])
    decreases |ids|
  {
    hide Converted;
    if ids != [] {
      PartsAreConverted(g, defs, version, ids[1..], active);
      var parts := ConvertedAll(g, defs, version, ids, active).value;
      var rest := ConvertedAll(g, defs, version, ids[1..], active).value;
      forall i | 0 <= i < |ids| ensures Converted(g, defs, version, ids[i], active, false) == Ok(parts[i]) {
        if i > 0 { assert ids[1..][i - 1] == ids[i] && rest[i - 1] == parts[i]; }
      }
    }
  }

  /** The field `i` of an object is property `i`, converted below the object. */
  lemma PropertiesAreFields(g: Graph, defs: Defs, version: Version, id: Id, active: seq<Id>, isRoot: bool)
    requires id in g && (forall a | a in active :: a in g) && g[id].Object?
    ensures var r := Converted(g, defs, version, id, active, isRoot);
            r.Ok? && r.value.Shape? ==>
              && r.value.of == g[id] && |r.value.parts| == |g[id].fields|
              && forall i | 0 <= i < |g[id].fields| ::
                   && g[id].fields[i].1 in g
                   && Converted(g, defs, version, g[id].fields[i].1, active + [id], false) == Ok(r.value.parts[i])
  {
    var r := Converted(g, defs, version, id, active, isRoot);
    var ids := Visited(g, version, id);
    FieldsAreNodes(g, id);
    assert ids == Seconds(g[id].fields);
    if r.Ok? && r.value.Shape? { PartsAreConverted(g, defs, version, ids, active + [id]); }
  }

  // ----- required fields ------------------------------------------------------------------

  /** Some field of this name has a node outside `x`. */
  ghost predicate NamesNeeded(fields: seq<(string, Id)>, x: set<Id>, name: string) {
    exists i | 0 <= i < |fields| :: fields[i].0 == name && fields[i].1 !in x
  }

  /** A field of the one name stands before one of the other. */
  ghost predicate InOrder(fields: seq<(string, Id)>, first: string, second: string) {
    exists i, j | 0 <= i < j < |fields| :: fields[i].0 == first && fields[j].0 == second
  }

  lemma {:induction false} RequiredNames(g: Graph, fields: seq<(string, Id)>, x: set<Id>, name: string)
    requires (forall i | 0 <= i < |fields| :: fields[i].1 in g) && IsLeast(g, InputRule, x)
    ensures name in RequiredFields(g, fields) <==> NamesNeeded(fields, x, name)
    decreases |fields|
  {
    if fields != [] {
      var rest := fields[1..];
      RequiredNames(g, rest, x, name);
      UndefinedIsLeast(g, fields[0].1, x);
      hide IsLeast, AcceptsUndefined;
      OneMoreField(fields, x, name);
      hide NamesNeeded;
    }
  }

  lemma OneMoreField(fields: seq<(string, Id)>, x: set<Id>, name: string)
    requires fields != []
    ensures NamesNeeded(fields, x, name) <==>
            (fields[0].0 == name && fields[0].1 !in x) || NamesNeeded(fields[1..], x, name)
  {
    var rest := fields[1..];
    if i :| 0 <= i < |fields| && fields[i].0 == name && fields[i].1 !in x && i > 0 { assert rest[i - 1] == fields[i]; }
    if i :| 0 <= i < |rest| && rest[i].0 == name && rest[i].1 !in x { assert fields[i + 1] == rest[i]; }
  }

  lemma UndefinedIsLeast(g: Graph, id: Id, x: set<Id>)
    requires id in g && IsLeast(g, InputRule, x)
    ensures AcceptsUndefined(g, id, {}) <==> id in x
  {
    hide InputUndef, AcceptsUndefined, Solves;
    CompilersAgree(g, id);
    InputUndefIsLeast(g);
    assert x == InputSet(g);
  }

  /** One name of the list comes before another when its field does. */
  lemma {:induction false} RequiredOrder(g: Graph, fields: seq<(string, Id)>, a: nat, b: nat)
    requires forall i | 0 <= i < |fields| :: fields[i].1 in g
    requires a < b < |RequiredFields(g, fields)|
    ensures InOrder(fields, RequiredFields(g, fields)[a], RequiredFields(g, fields)[b])
    decreases |fields|
  {
    hide AcceptsUndefined, InOrder;
    var rest := fields[1..];
    var own := if AcceptsUndefined(g, fields[0].1, {}) then 0 else 1;
    var required, more := RequiredFields(g, fields), RequiredFields(g, rest);
    assert required[b] == more[b - own];
    if own == 1 && a == 0 {
      var j := RequiredIsField(g, rest, b - 1);
      FirstComesFirst(fields, j);
    } else {
      assert required[a] == more[a - own];
      RequiredOrder(g, rest, a - own, b - own);
      LaterInOrder(fields, more[a - own], more[b - own]);
    }
  }

  lemma FirstComesFirst(fields: seq<(string, Id)>, j: nat)
    requires j + 1 < |fields|
    ensures InOrder(fields, fields[0].0, fields[1..][j].0)
  {
    assert fields[1..][j] == fields[j + 1];
  }

  lemma LaterInOrder(fields: seq<(string, Id)>, first: string, second: string)
    requires fields != [] && InOrder(fields[1..], first, second)
    ensures InOrder(fields, first, second)
  {
    var rest := fields[1..];
    var i, j :| 0 <= i < j < |rest| && rest[i].0 == first && rest[j].0 == second;
    assert fields[i + 1] == rest[i] && fields[j + 1] == rest[j];
  }

  lemma {:induction false} RequiredIsField(g: Graph, fields: seq<(string, Id)>, a: nat) returns (i: nat)
    requires forall i | 0 <= i < |fields| :: fields[i].1 in g
    requires a < |RequiredFields(g, fields)|
    ensures i < |fields| && fields[i].0 == RequiredFields(g, fields)[a]
    decreases |fields|
  {
    hide AcceptsUndefined;
    if !AcceptsUndefined(g, fields[0].1, {}) && a == 0 {
      i := 0;
    } else {
      var own := if AcceptsUndefined(g, fields[0].1, {}) then 0 else 1;
      var k := RequiredIsField(g, fields[1..], a - own);
      i := k + 1;
    }
  }

  /**
   An object requires exactly the names of the fields whose nodes have no value for undefined, in the least solution
   of the equations; with distinct names it lists each once, in the order of the fields.
   */
  lemma RequiredMeans(g: Graph, defs: Defs, version: Version, id: Id, active: seq<Id>, isRoot: bool, x: set<Id>)
    requires id in g && (forall a | a in active :: a in g) && g[id].Object? && IsLeast(g, InputRule, x)
    ensures var r, fields := Converted(g, defs, version, id, active, isRoot), g[id].fields;
            r.Ok? && r.value.Shape? ==>
              && (forall name :: name in r.value.required <==> NamesNeeded(fields, x, name))
              && (forall a, b | 0 <= a < b < |r.value.required| ::
                    InOrder(fields, r.value.required[a], r.value.required[b]))
              && ((forall i, j | 0 <= i < j < |fields| :: fields[i].0 != fields[j].0) ==> Distinct(r.value.required))
  {
    var r, fields := Converted(g, defs, version, id, active, isRoot), g[id].fields;
    FieldsAreNodes(g, id);
    if r.Ok? && r.value.Shape? {
      assert r.value.required == RequiredFields(g, fields);
      hide Converted, RequiredFields, IsLeast;
      forall name ensures name in r.value.required <==> NamesNeeded(fields, x, name) {
        RequiredNames(g, fields, x, name);
      }
      forall a: nat, b: nat | a < b < |r.value.required|
        ensures InOrder(fields, r.value.required[a], r.value.required[b])
      {
        RequiredOrder(g, fields, a, b);
      }
      OrderedOnce(fields, r.value.required);
    }
  }

  /** With distinct names, what is in the order of the fields is listed once. */
  lemma OrderedOnce(fields: seq<(string, Id)>, names: seq<string>)
    requires forall a, b | 0 <= a < b < |names| :: InOrder(fields, names[a], names[b])
    ensures (forall i, j | 0 <= i < j < |fields| :: fields[i].0 != fields[j].0) ==> Distinct(names)
  {
  }

  /** An object with a scalar `id` and an optional scalar `note` requires `id` only. */
  lemma IdIsRequired(g: Graph, version: Version)
    requires g == map[0 := Scalar, 1 := Optional(0), 2 := Object([("id", 0), ("note", 1)])]
    ensures var r := Converted(g, map[], version, 2, [], true); r.Ok? && r.value.Shape? && r.value.required == ["id"]
  {
    OneNeeded(g, [("id", 0), ("note", 1)]);
    FieldsAreNodes(g, 2);
    hide RequiredFields, ConvertedAll;
    assert g[2] == Object([("id", 0), ("note", 1)]);
    assert forall id | id in g :: !g[id].Lazy?;
    RegisteredRecursionConverts(g, map[], version, 2);
    assert 2 !in [];
  }

  lemma OneNeeded(g: Graph, fields: seq<(string, Id)>)
    requires g == map[0 := Scalar, 1 := Optional(0), 2 := Object([("id", 0), ("note", 1)])]
    requires fields == [("id", 0), ("note", 1)]
    ensures RequiredFields(g, fields) == ["id"]
  {
    assert fields[1..] == [("note", 1)] && fields[1..][1..] == [];
    assert RequiredFields(g, fields[1..]) == [] + [];
    assert ["id"] + [] == ["id"];
  }

  /** That graph is one. */
  lemma SuchGraph() returns (g: Graph)
    ensures g == map[0 := Scalar, 1 := Optional(0), 2 := Object([("id", 0), ("note", 1)])]
  {
    assert Seconds([("id", 0), ("note", 1)]) == [0, 1];
    var m: map<Id, Node> := map[0 := Scalar, 1 := Optional(0), 2 := Object([("id", 0), ("note", 1)])];
    assert Children(m[0]) == [] && Children(m[1]) == [0] && Children(m[2]) == [0, 1];
    g := m;
  }

  // ----- discriminators -------------------------------------------------------------------

  /** The mapping of a discriminated union leads from the tag of every registered case to its component. */
  lemma {:induction false} MappingMeans(defs: Defs, cases: seq<(string, Id)>, tag: string, reference: string)
    ensures (tag, reference) in MappingOf(defs, cases) <==>
            exists i | 0 <= i < |cases| ::
              cases[i].0 == tag && cases[i].1 in defs
              && reference == "#/components/schemas/" + EscapePointer(defs[cases[i].1])
    decreases |cases|
  {
    hide EscapePointer;
    if cases != [] {
      var rest := cases[1..];
      MappingMeans(defs, rest, tag, reference);
      if i :| 0 <= i < |cases| && cases[i].0 == tag && cases[i].1 in defs
              && reference == "#/components/schemas/" + EscapePointer(defs[cases[i].1]) && i > 0 {
        assert rest[i - 1] == cases[i];
      }
      if i :| 0 <= i < |rest| && rest[i].0 == tag && rest[i].1 in defs
              && reference == "#/components/schemas/" + EscapePointer(defs[rest[i].1]) {
        assert cases[i + 1] == rest[i];
      }
    }
  }

  // ----- unions and records ---------------------------------------------------------------

  function Leaf(n: Node): Oas { Shape(n, [], [], []) }

  lemma LeafIsConverted(g: Graph, version: Version, id: Id, active: seq<Id>)
    requires id in g && id !in active && (forall a | a in active :: a in g)
    requires g[id].Scalar? || g[id].NullNode? || g[id].LiteralNode? || g[id].StringNode?
    ensures Converted(g, map[], version, id, active, false) == Ok(Leaf(g[id]))
  {
    assert Visited(g, version, id) == [];
  }

  function Leaves(g: Graph, ids: seq<Id>): (parts: seq<Oas>)
    requires forall id | id in ids :: id in g
    ensures |parts| == |ids| && forall i | 0 <= i < |ids| :: parts[i] == Leaf(g[ids[i]])
  {
    seq(|ids|, i requires 0 <= i < |ids| => Leaf(g[ids[i]]))
  }

  lemma {:induction false} LeavesAreConverted(g: Graph, version: Version, ids: seq<Id>, active: seq<Id>)
    requires (forall a | a in active :: a in g) && forall id | id in ids :: id in g && id !in active
    requires forall id | id in ids ::
               g[id].Scalar? || g[id].NullNode? || g[id].LiteralNode? || g[id].StringNode?
    ensures ConvertedAll(g, map[], version, ids, active) == Ok(Leaves(g, ids))
    decreases |ids|
  {
    hide Converted;
    if ids != [] {
      LeafIsConverted(g, version, ids[0], active);
      LeavesAreConverted(g, version, ids[1..], active);
      assert Leaves(g, ids) == [Leaf(g[ids[0]])] + Leaves(g, ids[1..]);
    }
  }

  lemma ShapeIs(g: Graph, version: Version, id: Id, ids: seq<Id>)
    requires id in g && !g[id].Object? && !g[id].Discriminated?
    requires (forall c | c in ids :: c in g) && Visited(g, version, id) == ids
    requires ConvertedAll(g, map[], version, ids, [id]) == Ok(Leaves(g, ids))
    ensures Converted(g, map[], version, id, [], true) == Ok(Shape(g[id], Leaves(g, ids), [], []))
  {
    assert [] + [id] == [id] && id !in [];
    hide ConvertedAll, Visited;
  }

  /** In version 3.0 a union leaves out null and the literal null, and in version 3.1 nothing. */
  lemma NullsAreLeftOut(g: Graph, version: Version)
    requires g == map[0 := Scalar, 1 := NullNode, 2 := LiteralNode(LiteralNull), 3 := Union([1, 0, 2])]
    ensures var parts := if version == V30 then [Leaf(Scalar)]
                         else [Leaf(NullNode), Leaf(Scalar), Leaf(LiteralNode(LiteralNull))];
            Converted(g, map[], version, 3, [], true) == Ok(Shape(g[3], parts, [], []))
  {
    hide Converted, ConvertedAll, Visited;
    var ids := if version == V30 then [0] else [1, 0, 2];
    VisitedOfUnion(g, version);
    LeavesAreConverted(g, version, ids, [3]);
    ShapeIs(g, version, 3, ids);
    assert Leaves(g, ids) == if version == V30 then [Leaf(Scalar)]
                             else [Leaf(NullNode), Leaf(Scalar), Leaf(LiteralNode(LiteralNull))];
  }

  lemma VisitedOfUnion(g: Graph, version: Version)
    requires g == map[0 := Scalar, 1 := NullNode, 2 := LiteralNode(LiteralNull), 3 := Union([1, 0, 2])]
    ensures Visited(g, version, 3) == if version == V30 then [0] else [1, 0, 2]
  {
    var variants: seq<Id> := [1, 0, 2];
    assert variants[0] == 1 && IsNullish(g[variants[0]]);
    assert variants[1..] == [0, 2] && [0, 2][1..] == [2] && [2][1..] == [];
    assert Without(g, [2]) == [] + [];
    assert Without(g, [0, 2]) == [0] + [];
    assert Without(g, variants) == [] + [0];
  }

  /** Key constraints of a record stand behind its values, in version 3.1 only. */
  lemma KeysOfRecord(g: Graph, version: Version)
    requires g == map[0 := StringNode(false), 1 := Scalar, 2 := Record(0, 1)]
    ensures var parts := if version == V30 then [Leaf(Scalar)] else [Leaf(Scalar), Leaf(StringNode(false))];
            Converted(g, map[], version, 2, [], true) == Ok(Shape(g[2], parts, [], []))
  {
    hide Converted, ConvertedAll;
    var ids := if version == V30 then [1] else [1, 0];
    LeavesAreConverted(g, version, ids, [2]);
    ShapeIs(g, version, 2, ids);
    assert Leaves(g, ids) == if version == V30 then [Leaf(Scalar)] else [Leaf(Scalar), Leaf(StringNode(false))];
  }

  /** Those graphs are graphs. */
  lemma UnionGraph() returns (g: Graph)
    ensures g == map[0 := Scalar, 1 := NullNode, 2 := LiteralNode(LiteralNull), 3 := Union([1, 0, 2])]
  {
    var m: map<Id, Node> := map[0 := Scalar, 1 := NullNode, 2 := LiteralNode(LiteralNull), 3 := Union([1, 0, 2])];
    assert Children(m[0]) == [] && Children(m[1]) == [] && Children(m[2]) == [] && Children(m[3]) == [1, 0, 2];
    g := m;
  }

  lemma RecordGraph() returns (g: Graph)
    ensures g == map[0 := StringNode(false), 1 := Scalar, 2 := Record(0, 1)]
  {
    var m: map<Id, Node> := map[0 := StringNode(false), 1 := Scalar, 2 := Record(0, 1)];
    assert Children(m[0]) == [] && Children(m[1]) == [] && Children(m[2]) == [0, 1];
    g := m;
  }
}
