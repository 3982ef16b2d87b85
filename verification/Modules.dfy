/** Discovery of the module graph: a depth-first search with the path of the current module. */
module Modules {
  import opened Results
  import opened Walks
  import opened Lists

  type Module = nat

  datatype Problem = Circular(chain: seq<Module>) | MissingMetadata(mod: Module)

  /** The imports of a module; none without metadata. */
  function Imports(meta: map<Module, seq<Module>>, m: Module): seq<Module> {
    if m in meta then meta[m] else []
  }

  function Next(meta: map<Module, seq<Module>>): Module -> seq<Module> { m => Imports(meta, m) }

  /** Every module stands once, has metadata, and comes after all of its imports. */
  ghost predicate Ordered(meta: map<Module, seq<Module>>, order: seq<Module>) {
    && Distinct(order)
    && forall i | 0 <= i < |order| :: order[i] in meta && forall m | m in meta[order[i]] :: m in order[..i]
  }

  lemma OrderedSnoc(meta: map<Module, seq<Module>>, order: seq<Module>, mod: Module)
    requires Ordered(meta, order) && mod !in order && mod in meta && forall m | m in meta[mod] :: m in order
    ensures Ordered(meta, order + [mod])
  {
    var longer := order + [mod];
    forall i | 0 <= i < |longer| ensures longer[i] in meta && forall m | m in meta[longer[i]] :: m in longer[..i] {
      assert longer[..i] == order[..i];
    }
  }

  class Discovery {
    const meta: map<Module, seq<Module>>
    var visited: set<Module>
    var order: seq<Module>

    constructor (meta: map<Module, seq<Module>>)
      ensures this.meta == meta && visited == {} && order == []
    {
      this.meta, visited, order := meta, {}, [];
    }

    /** The state between two steps of the search from `root` with the modules of `path` under way. */
    ghost predicate Searching(root: Module, path: seq<Module>)
      reads this
    {
      && Ordered(meta, order)
      && visited == Elements(order) + Elements(path)
      && (forall m | m in order :: m !in path && Reaches(Next(meta), root, m))
      && Distinct(path)
    }

    method Visit(ghost root: Module, mod: Module, path: seq<Module>) returns (thrown: Option<Problem>)
      requires Searching(root, path)
      requires Walk(Next(meta), path + [mod]) && (path + [mod])[0] == root
      modifies this
      ensures thrown == None ==> Searching(root, path) && mod in order && old(order) <= order
      ensures match thrown
              case None => true
              case Some(Circular(chain)) => Walk(Next(meta), chain) && chain[0] == root && Closes(chain)
              case Some(MissingMetadata(m)) => Reaches(Next(meta), root, m) && m !in meta
      decreases meta.Keys - Elements(path)
    {
      if mod in path {
        assert (path + [mod])[..|path|] == path;
        return Some(Circular(path + [mod]));
      }
      if mod in visited { return None; }
      visited := visited + {mod};
      if mod !in meta { return Some(MissingMetadata(mod)); }
      var here := path + [mod];
      assert here[|here| - 1] == mod;
      assert mod in meta.Keys - Elements(path) && mod !in meta.Keys - Elements(here);
      var imports := meta[mod];
      var i := 0;
      while i < |imports|
        invariant 0 <= i <= |imports|
        invariant Searching(root, here) && old(order) <= order
        invariant forall k | 0 <= k < i :: imports[k] in order
      {
        WalkOn(Next(meta), here, imports[i]);
        thrown := Visit(root, imports[i], here);
        if thrown != None { return; }
        i := i + 1;
      }
      assert Reaches(Next(meta), root, mod);
      OrderedSnoc(meta, order, mod);
      order := order + [mod];
      return None;
    }
  }

  /** With the root and all imports of its modules in it, an order holds exactly what the root reaches. */
  lemma OrderIsReachable(meta: map<Module, seq<Module>>, order: seq<Module>, root: Module, m: Module)
    requires Ordered(meta, order) && root in order && Reaches(Next(meta), root, m)
    ensures m in order
  {
    var next := Next(meta);
    var p: seq<Module> :| Walk(next, p) && p[0] == root && p[|p| - 1] == m;
    forall x, y | x in order && y in next(x) ensures y in order {
      var i :| 0 <= i < |order| && order[i] == x;
      assert y in meta[order[i]];
    }
    StaysInside(next, p, order);
  }

  /** Along a walk the position in the order goes down. */
  lemma {:induction false} PositionsFallTo(meta: map<Module, seq<Module>>, order: seq<Module>, p: seq<Module>,
                                           a: nat, b: nat, i: nat)
    requires Ordered(meta, order) && Walk(Next(meta), p)
    requires a < b < |p| && i < |order| && order[i] == p[a]
    ensures p[b] in order[..i]
    decreases b
  {
    assert p[b - 1 + 1] in Next(meta)(p[b - 1]);
    if a == b - 1 {
      assert p[b] in meta[order[i]];
    } else {
      PositionsFallTo(meta, order, p, a, b - 1, i);
      var k :| 0 <= k < i && order[k] == p[b - 1];
      assert p[b] in meta[order[k]];
      assert order[..k] <= order[..i];
    }
  }

  lemma OrderedIsAcyclic(meta: map<Module, seq<Module>>, order: seq<Module>, root: Module)
    requires Ordered(meta, order) && root in order
    ensures !Cyclic(Next(meta), root)
  {
    var next := Next(meta);
    if p: seq<Module> :| Walk(next, p) && p[0] == root && Closes(p) {
      var b := |p| - 1;
      var a :| 0 <= a < b && p[a] == p[b];
      var q := p[..a + 1];
      assert Walk(next, q) && q[0] == root && q[|q| - 1] == p[a];
      OrderIsReachable(meta, order, root, p[a]);
      var i :| 0 <= i < |order| && order[i] == p[a];
      PositionsFallTo(meta, order, p, a, b, i);
    }
  }

  /** All modules that the root reaches have metadata. */
  ghost predicate Complete(meta: map<Module, seq<Module>>, root: Module) {
    forall m | Reaches(Next(meta), root, m) :: m in meta
  }

  /**
   Discovery: without an error the order holds exactly the reachable modules, each once and after its imports. With
   all metadata present it throws exactly when a cycle is reachable, and the reported chain is such a cycle.
   */
  method Discover(meta: map<Module, seq<Module>>, root: Module) returns (r: Result<seq<Module>, Problem>)
    ensures r.Ok? ==> Ordered(meta, r.value) && forall m :: m in r.value <==> Reaches(Next(meta), root, m)
    ensures r.Ok? ==> !Cyclic(Next(meta), root) && Complete(meta, root)
    ensures r.Err? && r.error.Circular? ==>
              var chain := r.error.chain; Walk(Next(meta), chain) && chain[0] == root && Closes(chain)
    ensures r.Err? && r.error.MissingMetadata? ==> Reaches(Next(meta), root, r.error.mod) && r.error.mod !in meta
    ensures Complete(meta, root) ==> (r.Err? <==> Cyclic(Next(meta), root))
  {
    var d := new Discovery(meta);
    assert Walk(Next(meta), [root]);
    var thrown := d.Visit(root, root, []);
    match thrown {
      case Some(e) => return Err(e);
      case None =>
        forall m ensures m in d.order <==> Reaches(Next(meta), root, m) {
          if Reaches(Next(meta), root, m) { OrderIsReachable(meta, d.order, root, m); }
        }
        OrderedIsAcyclic(meta, d.order, root);
        return Ok(d.order);
    }
  }
}
