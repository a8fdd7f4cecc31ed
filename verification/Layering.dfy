/** scripts/check_import_layers.py: the layer table, the inversions it grades, and the verdict of `main`. */
module Layering {
  import opened Digraph
  import opened Text
  import opened Options
  import ImportLayers
  import Order

  /** Layer index by top-level member; every theorem below holds for any table. */
  type Layers = map<string, nat>

  type Imports = map<string, set<string>>

  type Pair = (string, string)

  datatype ImportGraph = ImportGraph(modules: set<string>, runtime: Imports, late: Imports)

  /** The layer of a dotted module name; the bare package root has none. */
  function LayerOf(layers: Layers, name: string): Option<nat>
  {
    var parts := Split(name, '.');
    if |parts| < 2 then None
    else if parts[1] in layers then Some(layers[parts[1]]) else None
  }

  /** The second part of a dotted name is in the table. */
  predicate Placed(layers: Layers, name: string)
  {
    |Split(name, '.')| > 1 && Split(name, '.')[1] in layers
  }

  /** Both names are placed, and the table gives the target's member the larger number. */
  predicate PointsUp(layers: Layers, importer: string, target: string)
  {
    && Placed(layers, importer) && Placed(layers, target)
    && layers[Split(importer, '.')[1]] < layers[Split(target, '.')[1]]
  }

  predicate IsImport(imports: Imports, importer: string, target: string)
  {
    importer in imports && target in imports[importer]
  }

  /** Every import of one kind that points at a higher layer. */
  method UpwardEdges(layers: Layers, imports: Imports) returns (found: set<Pair>)
    ensures forall u, v :: (u, v) in found <==> IsImport(imports, u, v) && PointsUp(layers, u, v)
  {
    found := {};
    var importers := imports.Keys;
    while importers != {}
      invariant importers <= imports.Keys
      invariant forall u, v :: (u, v) in found <==> IsImport(imports, u, v) && PointsUp(layers, u, v) && u !in importers
      decreases |importers|
    {
      var importer :| importer in importers;
      importers := importers - {importer};
      var sourceLayer := LayerOf(layers, importer);
      if sourceLayer == None {
        continue;
      }
      var targets := imports[importer];
      while targets != {}
        invariant targets <= imports[importer]
        invariant forall u, v :: (u, v) in found <==>
          IsImport(imports, u, v) && PointsUp(layers, u, v) && u !in importers && (u == importer ==> v !in targets)
        decreases |targets|
      {
        var target :| target in targets;
        targets := targets - {target};
        var targetLayer := LayerOf(layers, target);
        if targetLayer.Some? && targetLayer.value > sourceLayer.value {
          found := found + {(importer, target)};
        }
      }
    }
  }

  /** The top-level members the table does not place. */
  function UnassignedMembers(layers: Layers, modules: set<string>): (orphans: set<string>)
  {
    (set name | name in modules && |Split(name, '.')| > 1 :: Split(name, '.')[1]) - layers.Keys
  }

  lemma IsUnassigned(layers: Layers, modules: set<string>, name: string)
    requires name in modules && |Split(name, '.')| > 1
    ensures Split(name, '.')[1] in UnassignedMembers(layers, modules) <==> !Placed(layers, name)
  {
  }

  /** No member is unassigned exactly when every module below the package root is placed. */
  lemma NoneUnassignedIff(layers: Layers, modules: set<string>)
    ensures UnassignedMembers(layers, modules) == {} <==>
      forall name :: name in modules && |Split(name, '.')| > 1 ==> Placed(layers, name)
  {
    var orphans := UnassignedMembers(layers, modules);
    forall name | name in modules && |Split(name, '.')| > 1
      ensures Split(name, '.')[1] in orphans <==> !Placed(layers, name)
    {
      IsUnassigned(layers, modules, name);
    }
    if member :| member in orphans {
      var name :| name in modules && |Split(name, '.')| > 1 && Split(name, '.')[1] == member;
    }
  }

  /** The `n`-component prefix of `parts` is a module and no longer prefix is; `n` of 0 means there is none. */
  ghost predicate LongestModule(parts: seq<string>, modules: set<string>, n: nat)
    requires n <= |parts|
  {
    && (n > 0 ==> Join(parts[..n], ".") in modules)
    && forall m :: n < m <= |parts| ==> Join(parts[..m], ".") !in modules
  }

  /** The longest dotted prefix of an import target that is a module: trailing attribute names are dropped. */
  method OwningModule(target: string, modules: set<string>) returns (owner: Option<string>)
    ensures match owner {
      case None => LongestModule(Split(target, '.'), modules, 0)
      case Some(name) => exists n ::
        0 < n <= |Split(target, '.')| && name == Join(Split(target, '.')[..n], ".")
          && LongestModule(Split(target, '.'), modules, n)
    }
  {
    var all := Split(target, '.');
    var parts := all;
    while |parts| > 0
      invariant parts == all[..|parts|]
      invariant forall m :: |parts| < m <= |all| ==> Join(all[..m], ".") !in modules
    {
      var candidate := Join(parts, ".");
      if candidate in modules {
        assert LongestModule(all, modules, |parts|);
        return Some(candidate);
      }
      parts := parts[..|parts| - 1];
    }
    owner := None;
  }

  // The verdict of `main`.

  datatype Report = Report(
    cycles: seq<seq<string>>,
    undeclared: set<Pair>, stale: set<Pair>,
    undeclaredLate: set<Pair>, staleLate: set<Pair>,
    orphans: set<string>)
  {
    /** Some FAIL line is printed, so the exit status is 1. */
    predicate Failed()
    {
      |cycles| > 0 || undeclared != {} || stale != {} || undeclaredLate != {} || staleLate != {} || orphans != {}
    }
  }

  ghost predicate Acyclic(g: Graph)
  {
    forall u, v :: g.Mutual(u, v) ==> u == v
  }

  ghost predicate InversionsAre(layers: Layers, imports: Imports, declared: set<Pair>)
  {
    forall u, v :: (u, v) in declared <==> IsImport(imports, u, v) && PointsUp(layers, u, v)
  }

  /** A component list is empty exactly when no two different nodes reach each other. */
  lemma NoComponentsMeansAcyclic(g: Graph, components: seq<seq<string>>)
    requires ImportLayers.ComponentsOf(g, components)
    ensures |components| == 0 <==> Acyclic(g)
  {
    hide ImportLayers.ComponentsOf, Graph.Mutual, Graph.Component, Order.Sorted;
    if |components| > 0 {
      var u, v := TwoOfAComponent(g, components);
      assert !Acyclic(g);
    }
    if u, v :| g.Mutual(u, v) && u != v {
      MutualIsReported(g, components, u, v);
    }
  }

  lemma TwoOfAComponent(g: Graph, components: seq<seq<string>>) returns (u: string, v: string)
    requires ImportLayers.ComponentsOf(g, components) && |components| > 0
    ensures g.Mutual(u, v) && u != v
  {
    hide Graph.Reach, Order.Ascending;
    var c := components[0];
    assert c in components;
    var n :| n in g.nodes && c == Order.Sorted(g.Component(n));
    u, v := c[0], c[1];
    assert u in Order.Elements(c) && v in Order.Elements(c);
    assert u != v;
    g.ReachTrans(u, n, v);
    g.ReachTrans(v, n, u);
  }

  lemma PairComponent(g: Graph, u: string, v: string)
    requires g.Mutual(u, v) && u != v
    ensures u in g.nodes && |g.Component(u)| > 1
  {
    hide Graph.Reach;
    g.ReachInNodes(u, v);
    g.ReachSelf(u);
    assert u in g.Component(u) && v in g.Component(u);
    Order.SubsetIsFewer({u, v}, g.Component(u));
  }

  lemma MutualIsReported(g: Graph, components: seq<seq<string>>, u: string, v: string)
    requires ImportLayers.ComponentsOf(g, components) && g.Mutual(u, v) && u != v
    ensures |components| > 0
  {
    hide Graph.Mutual, Graph.Component, Order.Sorted;
    PairComponent(g, u, v);
    assert Order.Sorted(g.Component(u)) in components;
  }

  method Grade(layers: Layers, graph: ImportGraph, declared: set<Pair>,
      declaredLate: set<Pair>) returns (report: Report)
    ensures !report.Failed() <==>
      && Acyclic(Graph(graph.runtime, graph.modules))
      && InversionsAre(layers, graph.runtime, declared)
      && InversionsAre(layers, graph.late, declaredLate)
      && (forall name :: name in graph.modules && |Split(name, '.')| > 1 ==> Placed(layers, name))
    ensures report.undeclared == {} && report.stale == {} <==> InversionsAre(layers, graph.runtime, declared)
    ensures report.undeclaredLate == {} && report.staleLate == {} <==> InversionsAre(layers, graph.late, declaredLate)
    ensures forall u, v :: (u, v) in report.undeclared <==>
      IsImport(graph.runtime, u, v) && PointsUp(layers, u, v) && (u, v) !in declared
    ensures forall u, v :: (u, v) in report.stale <==>
      (u, v) in declared && !(IsImport(graph.runtime, u, v) && PointsUp(layers, u, v))
    ensures forall u, v :: (u, v) in report.undeclaredLate <==>
      IsImport(graph.late, u, v) && PointsUp(layers, u, v) && (u, v) !in declaredLate
    ensures forall u, v :: (u, v) in report.staleLate <==>
      (u, v) in declaredLate && !(IsImport(graph.late, u, v) && PointsUp(layers, u, v))
    ensures forall name :: name in graph.modules && |Split(name, '.')| > 1 ==>
      (Split(name, '.')[1] in report.orphans <==> !Placed(layers, name))
    ensures ImportLayers.ComponentsOf(Graph(graph.runtime, graph.modules), report.cycles)
  {
    var cycles := ImportLayers.Cycles(graph.runtime, graph.modules);
    var inversions := UpwardEdges(layers, graph.runtime);
    var inversionsLate := UpwardEdges(layers, graph.late);
    NoComponentsMeansAcyclic(Graph(graph.runtime, graph.modules), cycles);
    report := Report(cycles, inversions - declared, declared - inversions,
      inversionsLate - declaredLate, declaredLate - inversionsLate, UnassignedMembers(layers, graph.modules));
    RostersAgree(layers, graph.runtime, inversions, declared);
    RostersAgree(layers, graph.late, inversionsLate, declaredLate);
    NoneUnassignedIff(layers, graph.modules);
  }

  lemma RostersAgree(layers: Layers, imports: Imports, inversions: set<Pair>, declared: set<Pair>)
    requires InversionsAre(layers, imports, inversions)
    ensures inversions - declared == {} && declared - inversions == {} <==> InversionsAre(layers, imports, declared)
  {
    if inversions - declared == {} && declared - inversions == {} {
      assert inversions == declared by {
        forall e | e in inversions ensures e in declared { assert e !in inversions - declared; }
        forall e | e in declared ensures e in inversions { assert e !in declared - inversions; }
      }
    }
    if InversionsAre(layers, imports, declared) {
      forall e: Pair
        ensures e in inversions <==> e in declared
      {
        var (u, v) := e;
      }
    }
  }

  // What a passing grade means for a run of imports.

  /** With an empty roster, layers never rise along a chain of runtime imports that stays among placed modules. */
  lemma {:induction false} LayersFall(layers: Layers, graph: ImportGraph, p: seq<string>, i: nat, j: nat)
    requires InversionsAre(layers, graph.runtime, {})
    requires Graph(graph.runtime, graph.modules).Walk(p) && i <= j < |p|
    requires Placed(layers, p[i]) && Placed(layers, p[j]) && forall k :: i <= k <= j ==> Placed(layers, p[k])
    ensures layers[Split(p[j], '.')[1]] <= layers[Split(p[i], '.')[1]]
    decreases j
  {
    if i < j {
      LayersFall(layers, graph, p, i, j - 1);
      assert Graph(graph.runtime, graph.modules).Edge(p[j - 1], p[j - 1 + 1]);
      assert IsImport(graph.runtime, p[j - 1], p[j]);
      assert (p[j - 1], p[j]) !in {};
    }
  }

  /** A chain of runtime imports that leaves a layer and comes back to it passes through the bare package root. */
  lemma ReturningPassesRoot(layers: Layers, graph: ImportGraph, p: seq<string>, k: nat)
    requires InversionsAre(layers, graph.runtime, {}) && UnassignedMembers(layers, graph.modules) == {}
    requires Graph(graph.runtime, graph.modules).Walk(p) && k < |p|
    requires Placed(layers, p[0]) && Placed(layers, p[|p| - 1])
    requires layers[Split(p[0], '.')[1]] == layers[Split(p[|p| - 1], '.')[1]]
    requires Placed(layers, p[k]) ==> layers[Split(p[k], '.')[1]] != layers[Split(p[0], '.')[1]]
    ensures exists i :: 0 <= i < |p| && p[i] in graph.modules && |Split(p[i], '.')| == 1
  {
    NoneUnassignedIff(layers, graph.modules);
    if forall i :: 0 <= i < |p| ==> Placed(layers, p[i]) {
      LayersFall(layers, graph, p, 0, k);
      LayersFall(layers, graph, p, k, |p| - 1);
      assert false;
    }
  }
}
