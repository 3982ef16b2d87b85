/** OpenAPI conversion of schema graphs: references, recursion and the component table. */
module OpenApi {
  import opened Results
  import opened Objects
  import opened SchemaGraph
  import opened Lists

  const SCHEMA_ROOT: string := "#/components/schemas/"

  // ----- pointers (section 3 of RFC 6901) -------------------------------------------------

  function ReplaceAll(s: string, c: char, with: string): string {
    if s == "" then "" else (if s[0] == c then with else [s[0]]) + ReplaceAll(s[1..], c, with)
  }

  /** First every tilde, then every slash. */
  function EscapePointer(name: string): string { ReplaceAll(ReplaceAll(name, '~', "~0"), '/', "~1") }

  /** Reading a reference token: `~1` is a slash and `~0` a tilde; other uses of the tilde are errors. */
  function Unescaped(s: string): Option<string> {
    if s == "" then Some("")
    else if s[0] == '/' then None
    else if s[0] != '~' then
      match Unescaped(s[1..]) case None => None case Some(rest) => Some([s[0]] + rest)
    else if |s| < 2 || s[1] !in "01" then None
    else
      match Unescaped(s[2..]) case None => None case Some(rest) => Some([if s[1] == '1' then '/' else '~'] + rest)
  }

  function Escaped1(c: char): string { if c == '~' then "~0" else if c == '/' then "~1" else [c] }

  lemma {:induction false} EscapeByChar(name: string)
    ensures EscapePointer(name) == if name == "" then "" else Escaped1(name[0]) + EscapePointer(name[1..])
  {
    if name != "" {
      var once := ReplaceAll(name[1..], '~', "~0");
      if name[0] == '~' {
        assert "~0" + once == ['~'] + (['0'] + once);
        assert ("~0" + once)[1..] == ['0'] + once;
        assert (['0'] + once)[1..] == once;
        assert ReplaceAll("~0" + once, '/', "~1") == "~" + ReplaceAll(['0'] + once, '/', "~1");
        assert ReplaceAll(['0'] + once, '/', "~1") == "0" + ReplaceAll(once, '/', "~1");
      } else {
        assert ([name[0]] + once)[1..] == once;
      }
    }
  }

  /** An escaped name is one reference token that reads back as the name; so escaping is injective. */
  lemma {:induction false} EscapeReadsBack(name: string)
    ensures Unescaped(EscapePointer(name)) == Some(name)
  {
    hide EscapePointer;
    EscapeByChar(name);
    if name != "" {
      EscapeReadsBack(name[1..]);
      ReadsOne(name[0], EscapePointer(name[1..]), name[1..]);
      assert name == [name[0]] + name[1..];
    }
  }

  lemma ReadsOne(c: char, rest: string, value: string)
    requires Unescaped(rest) == Some(value)
    ensures Unescaped(Escaped1(c) + rest) == Some([c] + value)
  {
    var s := Escaped1(c) + rest;
    if c == '~' || c == '/' {
      assert s[2..] == rest;
    } else {
      assert s[1..] == rest;
    }
  }

  // ----- conversion -----------------------------------------------------------------------

  datatype Version = V30 | V31

  /** A converted schema: a reference, or what one node becomes. `mapping` is that of a discriminator. */
  datatype Oas =
    | Ref(reference: string)
    | Shape(of: Node, parts: seq<Oas>, required: seq<string>, mapping: seq<(string, string)>)

  datatype Problem = RecursiveSchema

  type Defs = map<Id, string>

  function RefTo(name: string): string { SCHEMA_ROOT + EscapePointer(name) }

  /** The reference to a component with a slash and a tilde in its name. */
  lemma ReferenceText()
    ensures RefTo("a/b~c") == "#/components/schemas/a~1b~0c"
  {
    hide *;
    EscapeByChar("");
    EscapeOne('c', "", "");
    assert "c" == ['c'] + "" && "~c" == ['~'] + "c" && "~0c" == "~0" + "c" && "b~c" == ['b'] + "~c";
    assert "b~0c" == ['b'] + "~0c" && "/b~c" == ['/'] + "b~c" && "~1b~0c" == "~1" + "b~0c" && "a/b~c" == ['a'] + "/b~c";
    EscapeOne('~', "c", "c");
    EscapeOne('b', "~c", "~0c");
    EscapeOne('/', "b~c", "b~0c");
    EscapeOne('a', "/b~c", "~1b~0c");
    ReferenceIs("a/b~c");
    assert "a~1b~0c" == ['a'] + "~1b~0c";
  }

  lemma ReferenceIs(name: string)
    ensures RefTo(name) == "#/components/schemas/" + EscapePointer(name)
  {
  }

  lemma EscapeOne(c: char, rest: string, escaped: string)
    requires EscapePointer(rest) == escaped
    ensures EscapePointer([c] + rest) == (if c == '~' then "~0" else if c == '/' then "~1" else [c]) + escaped
  {
    hide EscapePointer;
    EscapeByChar([c] + rest);
    assert ([c] + rest)[1..] == rest;
  }

  predicate IsNullish(n: Node) {
    n.NullNode? || n.UndefinedNode? || (n.LiteralNode? && n.value == LiteralNull)
  }

  function Without(g: Graph, ids: seq<Id>): (r: seq<Id>)
    requires forall id | id in ids :: id in g
    ensures forall id | id in r :: id in ids
  {
    if ids == [] then [] else (if IsNullish(g[ids[0]]) then [] else [ids[0]]) + Without(g, ids[1..])
  }

  /** The children of a node that the conversion visits, in order. */
  function Visited(g: Graph, version: Version, id: Id): (r: seq<Id>)
    requires id in g
    ensures forall c | c in r :: c in g
  {
    var n := g[id];
    assert forall c | c in Children(n) :: c in g;
    match n
    case Record(keys, values) =>
      var bare := g[keys].StringNode? && g[keys].bare;
      if bare || g[keys].NumberNode? || version == V30 then [values] else [values, keys]
    case Union(variants) =>
      if version == V30 && exists i | 0 <= i < |variants| :: IsNullish(g[variants[i]]) then Without(g, variants)
      else variants
    case _ => Children(n)
  }

  /** Names of the fields that must be present. */
  function RequiredFields(g: Graph, fields: seq<(string, Id)>): seq<string>
    requires forall i | 0 <= i < |fields| :: fields[i].1 in g
  {
    if fields == [] then []
    else (if AcceptsUndefined(g, fields[0].1, {}) then [] else [fields[0].0]) + RequiredFields(g, fields[1..])
  }

  /** The mapping entries of the registered cases. */
  function MappingOf(defs: Defs, cases: seq<(string, Id)>): seq<(string, string)> {
    if cases == [] then []
    else (if cases[0].1 in defs then [(cases[0].0, RefTo(defs[cases[0].1]))] else []) + MappingOf(defs, cases[1..])
  }

  lemma FieldsAreNodes(g: Graph, id: Id)
    requires id in g
    ensures g[id].Object? ==> forall i | 0 <= i < |g[id].fields| :: g[id].fields[i].1 in g
  {
    if g[id].Object? {
      var fields := g[id].fields;
      forall i | 0 <= i < |fields| ensures fields[i].1 in g {
        assert Seconds(fields)[i] == fields[i].1;
        assert fields[i].1 in Children(g[id]);
      }
    }
  }

  /** What a node becomes once its children are converted. */
  function Assembled(g: Graph, defs: Defs, id: Id, parts: seq<Oas>): Oas
    requires id in g
  {
    FieldsAreNodes(g, id);
    Shape(g[id], parts,
          if g[id].Object? then RequiredFields(g, g[id].fields) else [],
          if g[id].Discriminated? then MappingOf(defs, g[id].cases) else [])
  }

  /** The conversion of a node; `active` holds the nodes on the path. */
  function Converted(g: Graph, defs: Defs, version: Version, id: Id, active: seq<Id>, isRoot: bool)
    : Result<Oas, Problem>
    requires id in g && forall a | a in active :: a in g
    decreases g.Keys - Elements(active), 1, 0
  {
    if !isRoot && id in defs then Ok(Ref(RefTo(defs[id])))
    else if id in active then Err(RecursiveSchema)
    else
      assert id in g.Keys - Elements(active) && id !in g.Keys - Elements(active + [id]);
      match ConvertedAll(g, defs, version, Visited(g, version, id), active + [id])
      case Err(e) => Err(e)
      case Ok(parts) => Ok(Assembled(g, defs, id, parts))
  }

  function ConvertedAll(g: Graph, defs: Defs, version: Version, ids: seq<Id>, active: seq<Id>)
    : Result<seq<Oas>, Problem>
    requires (forall id | id in ids :: id in g) && forall a | a in active :: a in g
    decreases g.Keys - Elements(active), 2, |ids|
  {
    if ids == [] then Ok([])
    else
      match Converted(g, defs, version, ids[0], active, false)
      case Err(e) => Err(e)
      case Ok(first) =>
        match ConvertedAll(g, defs, version, ids[1..], active)
        case Err(e) => Err(e)
        case Ok(rest) => Ok([first] + rest)
  }

  /** The conversion context: the stack of nodes being converted is pushed and popped. */
  class Context {
    const version: Version
    const defs: Defs
    var active: seq<Id>

    constructor (version: Version, defs: Defs)
      ensures this.version == version && this.defs == defs && active == []
    {
      this.version, this.defs, this.active := version, defs, [];
    }

    method Convert(g: Graph, id: Id, isRoot: bool) returns (r: Result<Oas, Problem>)
      requires id in g && forall a | a in active :: a in g
      modifies this
      ensures active == old(active)
      ensures r == Converted(g, defs, version, id, active, isRoot)
      decreases g.Keys - Elements(active), 1, 0
    {
      if !isRoot {
        if id in defs { return Ok(Ref(RefTo(defs[id]))); }
      }
      if id in active { return Err(RecursiveSchema); }
      ghost var before := active;
      assert id in g.Keys - Elements(active) && id !in g.Keys - Elements(active + [id]);
      active := active + [id];
      var parts := ConvertChildren(g, Visited(g, version, id));
      active := active[..|active| - 1];
      assert active == before;
      match parts {
        case Err(e) => return Err(e);
        case Ok(ps) => return Ok(Assembled(g, defs, id, ps));
      }
    }

    method ConvertChildren(g: Graph, ids: seq<Id>) returns (r: Result<seq<Oas>, Problem>)
      requires (forall id | id in ids :: id in g) && forall a | a in active :: a in g
      modifies this
      ensures active == old(active)
      ensures r == ConvertedAll(g, defs, version, ids, active)
      decreases g.Keys - Elements(active), 2, 0
    {
      hide Converted, ConvertedAll, Behind;
      var parts: seq<Oas> := [];
      var i := 0;
      assert ids[0..] == ids;
      NothingBehind(ConvertedAll(g, defs, version, ids, active));
      while i < |ids|
        invariant 0 <= i <= |ids| && active == old(active)
        invariant ConvertedAll(g, defs, version, ids, active)
                  == Behind(parts, ConvertedAll(g, defs, version, ids[i..], active))
      {
        OneMore(g, defs, version, ids, i, active, parts);
        var part := Convert(g, ids[i], false);
        if part.Err? { return Err(part.error); }
        parts := parts + [part.value];
        i := i + 1;
      }
      NoMore(g, defs, version, ids[i..], active, parts);
      return Ok(parts);
    }
  }

  lemma NoMore(g: Graph, defs: Defs, version: Version, ids: seq<Id>, active: seq<Id>, parts: seq<Oas>)
    requires ids == [] && forall a | a in active :: a in g
    ensures Behind(parts, ConvertedAll(g, defs, version, ids, active)) == Ok(parts)
  {
    assert parts + [] == parts;
  }

  lemma OneMore(g: Graph, defs: Defs, version: Version, ids: seq<Id>, i: nat, active: seq<Id>, parts: seq<Oas>)
    requires (forall id | id in ids :: id in g) && (forall a | a in active :: a in g) && i < |ids|
    ensures Behind(parts, ConvertedAll(g, defs, version, ids[i..], active)) ==
            match Converted(g, defs, version, ids[i], active, false)
            case Err(e) => Err(e)
            case Ok(first) => Behind(parts + [first], ConvertedAll(g, defs, version, ids[i + 1..], active))
  {
    hide Converted;
    assert ids[i..][1..] == ids[i + 1..];
    var first := Converted(g, defs, version, ids[i], active, false);
    var rest := ConvertedAll(g, defs, version, ids[i + 1..], active);
    if first.Ok? && rest.Ok? {
      assert parts + ([first.value] + rest.value) == (parts + [first.value]) + rest.value;
    }
  }

  // ----- documents ------------------------------------------------------------------------

  /** An entry of the schema table: a schema, or an OpenAPI object taken as it is. */
  datatype SchemaInput = SchemaOf(node: Id) | Raw

  datatype Component = Generated(schema: Oas) | Verbatim

  type Entries = seq<(string, SchemaInput)>

  function Keys<T>(entries: seq<(string, T)>): (r: seq<string>)
    ensures |r| == |entries|
  {
    seq(|entries|, i requires 0 <= i < |entries| => entries[i].0)
  }

  /** The schema table, then what the options add under names that are not taken. */
  function Merged(all: Entries, extra: Entries): Entries
    decreases |extra|
  {
    if extra == [] then all
    else if extra[0].0 in Keys(all) || extra[0].0 in INHERITED then Merged(all, extra[1..])
    else Merged(all + [extra[0]], extra[1..])
  }

  /** The name of a node is the last one it is registered under. */
  function DefsOf(all: Entries): Defs {
    if all == [] then map[]
    else
      var before := DefsOf(all[..|all| - 1]);
      match all[|all| - 1].1
      case SchemaOf(node) => before[node := all[|all| - 1].0]
      case Raw => before
  }

  predicate NodesIn(g: Graph, all: Entries) {
    forall i | 0 <= i < |all| :: all[i].1.SchemaOf? ==> all[i].1.node in g
  }

  function ComponentOf(g: Graph, defs: Defs, version: Version, input: SchemaInput): Result<Component, Problem>
    requires input.SchemaOf? ==> input.node in g
  {
    match input
    case Raw => Ok(Verbatim)
    case SchemaOf(node) =>
      match Converted(g, defs, version, node, [], true)
      case Err(e) => Err(e)
      case Ok(oas) => Ok(Generated(oas))
  }

  /** What merging keeps and adds: an added name is new and not inherited. */
  lemma {:induction false} MergedEntries(all: Entries, extra: Entries)
    ensures var merged := Merged(all, extra);
            && all <= merged
            && (forall k :: k in Keys(merged) <==> k in Keys(all) || (k in Keys(extra) && k !in INHERITED))
            && (Distinct(Keys(all)) ==> Distinct(Keys(merged)))
    decreases |extra|
  {
    hide INHERITED, Distinct;
    if extra != [] {
      var more := if extra[0].0 in Keys(all) || extra[0].0 in INHERITED then all else all + [extra[0]];
      MergedEntries(more, extra[1..]);
      assert Keys(extra) == [extra[0].0] + Keys(extra[1..]);
      assert Keys(all + [extra[0]]) == Keys(all) + [extra[0].0];
      if extra[0].0 !in Keys(all) { OneMoreIsDistinct(Keys(all), extra[0].0); }
    }
  }

  lemma OneMoreIsDistinct(keys: seq<string>, k: string)
    requires k !in keys
    ensures Distinct(keys) ==> Distinct(keys + [k])
  {
  }

  /** Every entry is one of the table, or an addition whose name is neither taken nor inherited. */
  lemma {:induction false} MergedFrom(all: Entries, extra: Entries, e: (string, SchemaInput))
    requires Distinct(Keys(extra))
    ensures e in Merged(all, extra) <==> e in all || (e in extra && e.0 !in Keys(all) && e.0 !in INHERITED)
    decreases |extra|
  {
    hide INHERITED;
    if extra != [] {
      var first, rest := extra[0], extra[1..];
      var more := if first.0 in Keys(all) || first.0 in INHERITED then all else all + [first];
      assert Keys(rest) == Keys(extra)[1..];
      MergedFrom(more, rest, e);
      assert Keys(all + [first]) == Keys(all) + [first.0];
      if e in rest {
        var i :| 0 <= i < |rest| && rest[i] == e;
        assert Keys(extra)[i + 1] == e.0 && Keys(extra)[0] == first.0;
      }
    }
  }

  /** A schema that the options name `toString` is not in the document. */
  lemma ToStringIsDropped(schemas: Entries, input: SchemaInput)
    ensures Merged(schemas, [("toString", input)]) == schemas
  {
    assert Merged(schemas, []) == schemas;
  }

  /** The options add exactly the entries whose names are neither taken nor inherited. */
  method MergeSchemas(schemas: Entries, extra: Entries) returns (all: Entries)
    ensures all == Merged(schemas, extra)
    ensures schemas <= all && (Distinct(Keys(schemas)) ==> Distinct(Keys(all)))
    ensures forall k | k in Keys(extra) :: k in Keys(all) <==> k in Keys(schemas) || k !in INHERITED
    ensures Distinct(Keys(extra)) ==>
              forall e :: e in all <==> e in schemas || (e in extra && e.0 !in Keys(schemas) && e.0 !in INHERITED)
  {
    MergedEntries(schemas, extra);
    if Distinct(Keys(extra)) {
      forall e ensures e in Merged(schemas, extra) <==>
                       e in schemas || (e in extra && e.0 !in Keys(schemas) && e.0 !in INHERITED)
      {
        MergedFrom(schemas, extra, e);
      }
    }
    hide INHERITED, Distinct;
    all := schemas;
    var i := 0;
    assert extra[0..] == extra;
    while i < |extra|
      invariant 0 <= i <= |extra|
      invariant Merged(schemas, extra) == Merged(all, extra[i..])
    {
      assert extra[i..][1..] == extra[i + 1..];
      if extra[i].0 !in Keys(all) && extra[i].0 !in INHERITED { all := all + [extra[i]]; }
      i := i + 1;
    }
  }

  /** The names under which nodes are registered. */
  method RegisterNames(all: Entries) returns (defs: Defs)
    ensures defs == DefsOf(all)
  {
    defs := map[];
    var i := 0;
    while i < |all|
      invariant 0 <= i <= |all| && defs == DefsOf(all[..i])
    {
      assert all[..i + 1][..i] == all[..i];
      if all[i].1.SchemaOf? { defs := defs[all[i].1.node := all[i].0]; }
      i := i + 1;
    }
    assert all[..i] == all;
  }

  /** The components of the table, in order. */
  ghost predicate ComponentsOf(g: Graph, defs: Defs, version: Version, all: Entries,
                               components: seq<(string, Component)>)
    requires NodesIn(g, all)
  {
    && |components| == |all|
    && forall i | 0 <= i < |all| ::
         components[i].0 == all[i].0 && ComponentOf(g, defs, version, all[i].1) == Ok(components[i].1)
  }

  /** Convert every schema of the table; the first recursive one is thrown. */
  method BuildComponents(g: Graph, version: Version, schemas: Entries, extra: Entries)
    returns (r: Result<seq<(string, Component)>, Problem>)
    requires NodesIn(g, schemas) && NodesIn(g, extra)
    ensures var all := Merged(schemas, extra);
            && NodesIn(g, all)
            && (r.Ok? ==> ComponentsOf(g, DefsOf(all), version, all, r.value))
            && (r.Err? ==> exists i | 0 <= i < |all| :: ComponentOf(g, DefsOf(all), version, all[i].1).Err?)
  {
    hide Converted, Merged, DefsOf;
    var all := MergeSchemas(schemas, extra);
    MergedNodes(g, schemas, extra);
    var defs := RegisterNames(all);
    var ctx := new Context(version, defs);
    var components: seq<(string, Component)> := [];
    var i := 0;
    while i < |all|
      invariant 0 <= i <= |all| && |components| == i && fresh(ctx)
      invariant ctx.active == [] && ctx.defs == defs && ctx.version == version
      invariant forall k | 0 <= k < i ::
          components[k].0 == all[k].0 && ComponentOf(g, defs, version, all[k].1) == Ok(components[k].1)
    {
      var component := Verbatim;
      if all[i].1.SchemaOf? {
        var oas := ctx.Convert(g, all[i].1.node, true);
        if oas.Err? {
          assert ComponentOf(g, defs, version, all[i].1).Err?;
          return Err(oas.error);
        }
        component := Generated(oas.value);
      }
      components := components + [(all[i].0, component)];
      i := i + 1;
    }
    return Ok(components);
  }

  lemma {:induction false} MergedNodes(g: Graph, all: Entries, extra: Entries)
    requires NodesIn(g, all) && NodesIn(g, extra)
    ensures NodesIn(g, Merged(all, extra))
    decreases |extra|
  {
    if extra != [] {
      assert NodesIn(g, all + [extra[0]]);
      if extra[0].0 in Keys(all) || extra[0].0 in INHERITED {
        MergedNodes(g, all, extra[1..]);
      } else {
        MergedNodes(g, all + [extra[0]], extra[1..]);
      }
    }
  }
}
