/**
 scripts/verify_workspace_dag.py: the workspace dependency gate. It collects the normal
 edges between workspace packages and walks them depth first with a grey set (`visiting`)
 and a black set (`visited`), recording an error whenever it meets a grey package.
 */
module WorkspaceDag {
  import opened Outcome
  import opened Sorting
  import opened Graphs

  /** One entry of a package's `dependencies`; Cargo writes a null kind for a normal dependency. */
  datatype Dependency = Dependency(name: string, kind: Option<string>)

  type Packages = map<string, seq<Dependency>>
  type Edge = (string, string)

  datatype Finding =
    | WrongPackages
    | ForbiddenEdge(source: string, target: string)
    | CycleThrough(name: string)

  const EXPECTED: set<string> := {
    "druid-rdbc", "druid", "druid-wrapper", "druid-metrics", "druid-admin", "druid-bench", "druid-test"
  }

  const FORBIDDEN: set<Edge> := {
    ("druid-rdbc", "druid"),
    ("druid", "druid-wrapper"),
    ("druid", "druid-metrics"),
    ("druid-metrics", "druid-wrapper"),
    ("druid-admin", "druid"),
    ("druid-admin", "druid-wrapper")
  }

  // ----- What the gate is about -----

  ghost predicate NormalEdge(packages: Packages, e: Edge) {
    && e.0 in packages
    && e.1 in packages
    && Dependency(e.1, None) in packages[e.0]
  }

  ghost predicate HasCycle(g: Graph) {
    exists n :: Leads(g, n, n)
  }

  /** The finish times put every package after all of its dependencies. */
  ghost predicate DependenciesFirst(g: Graph, finish: map<string, nat>) {
    forall n, t :: n in finish && Arrow(g, n, t) ==> t in finish && finish[t] < finish[n]
  }

  ghost predicate Injective(finish: map<string, nat>) {
    forall m, n :: m in finish && n in finish && finish[m] == finish[n] ==> m == n
  }

  // ----- Finish times rule cycles out -----

  lemma {:induction false} WalkDescends(g: Graph, finish: map<string, nat>, p: seq<string>)
    requires DependenciesFirst(g, finish) && Walk(g, p) && |p| >= 2 && p[0] in finish
    ensures p[|p| - 1] in finish && finish[p[|p| - 1]] < finish[p[0]]
    decreases |p|
  {
    assert Arrow(g, p[0], p[1]);
    if |p| > 2 { WalkDescends(g, finish, p[1..]); }
  }

  lemma DependenciesFirstIsAcyclic(g: Graph, finish: map<string, nat>)
    requires DependenciesFirst(g, finish) && g.Keys <= finish.Keys
    ensures !HasCycle(g)
  {
    if n :| Leads(g, n, n) {
      var p :| |p| >= 2 && Walk(g, p) && p[0] == n && p[|p| - 1] == n;
      assert Arrow(g, p[0], p[1]);
      WalkDescends(g, finish, p);
      assert false;
    }
  }

  // ----- The depth-first walk -----

  class Visitor {
    const adjacency: Graph
    var visiting: set<string>
    var visited: set<string>
    var reports: seq<string>  // the "cycle through" errors, in the order they are appended
    ghost var clock: nat  // how many packages have been finished
    ghost var finish: map<string, nat>  // the moment each visited package was finished

    constructor (g: Graph)
      requires Closed(g)
      ensures Valid() && adjacency == g
      ensures visiting == {} && visited == {} && reports == []
    {
      adjacency := g;
      visiting, visited, reports := {}, {}, [];
      clock, finish := 0, map[];
    }

    ghost predicate Valid()
      reads this
    {
      && Closed(adjacency)
      && visiting <= adjacency.Keys
      && visited <= adjacency.Keys
      && visiting !! visited
      && visited == finish.Keys
      && (forall n :: n in finish ==> finish[n] < clock)
      && Injective(finish)
      && (forall n :: n in reports ==> Leads(adjacency, n, n))
      && (reports == [] ==> DependenciesFirst(adjacency, finish))
    }

    /** Every grey package leads to the package about to be visited. */
    ghost predicate GreyLeadsTo(name: string)
      reads this
    {
      forall x :: x in visiting ==> Leads(adjacency, x, name)
    }

    method Visit(name: string)
      requires Valid() && name in adjacency && GreyLeadsTo(name)
      modifies this
      ensures Valid()
      ensures visiting == old(visiting) && old(visited) <= visited
      ensures old(reports) <= reports && (reports == [] ==> name in visited)
      decreases adjacency.Keys - visiting - visited, 1
    {
      if name in visiting {
        reports := reports + [name];
        return;
      }
      if name in visited {
        return;
      }
      Begin(name);
      VisitTargets(name);
      Finish(name);
    }

    method Begin(name: string)
      requires Valid() && name in adjacency && GreyLeadsTo(name)
      requires name !in visiting && name !in visited
      modifies this`visiting
      ensures Valid()
      ensures visiting == old(visiting) + {name}
      ensures forall t :: t in adjacency[name] ==> GreyLeadsTo(t)
      ensures adjacency.Keys - visiting - visited < old(adjacency.Keys - visiting - visited)
    {
      visiting := visiting + {name};
      forall t, x | t in adjacency[name] && x in visiting ensures Leads(adjacency, x, t) {
        assert Arrow(adjacency, name, t);
        if x == name { ArrowLeads(adjacency, name, t); } else { LeadsArrow(adjacency, x, name, t); }
      }
      assert name in old(adjacency.Keys - visiting - visited);
    }

    /** The loop over the sorted dependencies of the package that turned grey last. */
    method VisitTargets(name: string)
      requires Valid() && name in visiting
      requires forall t :: t in adjacency[name] ==> GreyLeadsTo(t)
      modifies this
      ensures Valid()
      ensures visiting == old(visiting) && old(visited) <= visited
      ensures old(reports) <= reports && (reports == [] ==> adjacency[name] <= visited)
      decreases adjacency.Keys - visiting - visited, 2
    {
      var targets := SortedNames(adjacency[name]);
      var i := 0;
      while i < |targets|
        invariant 0 <= i <= |targets|
        invariant Valid()
        invariant visiting == old(visiting) && old(visited) <= visited
        invariant old(reports) <= reports
        invariant reports == [] ==> forall j :: 0 <= j < i ==> targets[j] in visited
      {
        assert targets[i] in targets;
        Visit(targets[i]);
        i := i + 1;
      }
    }

    method Finish(name: string)
      requires Valid() && name in visiting
      requires reports == [] ==> adjacency[name] <= visited
      modifies this`visiting, this`visited, this`finish, this`clock
      ensures Valid()
      ensures visiting == old(visiting) - {name} && visited == old(visited) + {name}
    {
      visiting := visiting - {name};
      visited := visited + {name};
      finish, clock := finish[name := clock], clock + 1;
    }
  }

  /** Walks every package in sorted order, as the loop at the end of `main` does. */
  method WalkAll(g: Graph) returns (reports: seq<string>, ghost finish: map<string, nat>)
    requires Closed(g)
    ensures forall n :: n in reports ==> Leads(g, n, n)
    ensures reports == [] <==> !HasCycle(g)
    ensures reports == [] ==> finish.Keys == g.Keys && Injective(finish) && DependenciesFirst(g, finish)
  {
    var visitor := new Visitor(g);
    var names := SortedNames(g.Keys);
    var i := 0;
    while i < |names|
      invariant 0 <= i <= |names|
      invariant visitor.Valid() && visitor.adjacency == g && visitor.visiting == {}
      invariant visitor.reports == [] ==> forall j :: 0 <= j < i ==> names[j] in visitor.visited
    {
      assert names[i] in names;
      visitor.Visit(names[i]);
      i := i + 1;
    }
    reports, finish := visitor.reports, visitor.finish;
    if reports == [] {
      DependenciesFirstIsAcyclic(g, finish);
    } else {
      assert reports[0] in reports;
    }
  }

  // ----- The gate -----

  /** The two nested loops that collect the normal edges and flag the forbidden ones. */
  /** The finding for an edge that is there and forbidden. */
  ghost predicate Flags(f: Finding, edges: set<Edge>, forbidden: set<Edge>) {
    f.ForbiddenEdge? && (f.source, f.target) in edges && (f.source, f.target) in forbidden
  }

  method CollectEdges(packages: Packages, forbidden: set<Edge>, findings: seq<Finding>)
    returns (edges: set<Edge>, errors: seq<Finding>)
    ensures forall e :: e in edges <==> NormalEdge(packages, e)
    ensures findings <= errors
    ensures errors == findings <==> forall e :: NormalEdge(packages, e) ==> e !in forbidden
    ensures forall f :: f in errors <==> f in findings || Flags(f, edges, forbidden)
  {
    edges, errors := {}, findings;
    var names := packages.Keys;
    while names != {}
      invariant names <= packages.Keys
      invariant forall e :: e in edges <==> NormalEdge(packages, e) && e.0 !in names
      invariant findings <= errors
      invariant errors == findings <==> edges !! forbidden
      invariant forall f :: f in errors <==> f in findings || Flags(f, edges, forbidden)
      decreases |names|
    {
      var name :| name in names;
      var i := 0;
      while i < |packages[name]|
        invariant 0 <= i <= |packages[name]|
        invariant forall e :: e in edges <==>
                    && NormalEdge(packages, e)
                    && (e.0 !in names || (e.0 == name && Dependency(e.1, None) in packages[name][..i]))
        invariant findings <= errors
        invariant errors == findings <==> edges !! forbidden
        invariant forall f :: f in errors <==> f in findings || Flags(f, edges, forbidden)
      {
        var dependency := packages[name][i];
        assert packages[name][..i + 1] == packages[name][..i] + [dependency];
        if dependency.name in packages && dependency.kind.None? {
          var edge := (name, dependency.name);
          edges := edges + {edge};
          if edge in forbidden {
            errors := errors + [ForbiddenEdge(name, dependency.name)];
          }
        }
        i := i + 1;
      }
      assert packages[name][..i] == packages[name];
      names := names - {name};
    }
  }

  function Adjacency(names: set<string>, edges: set<Edge>): (g: Graph) {
    map n | n in names :: set e | e in edges && e.0 == n :: e.1
  }

  ghost function NormalGraph(packages: Packages): Graph {
    map n | n in packages :: set d | d in packages && NormalEdge(packages, (n, d))
  }

  lemma AdjacencyIsNormalGraph(packages: Packages, edges: set<Edge>)
    requires forall e :: e in edges <==> NormalEdge(packages, e)
    ensures Adjacency(packages.Keys, edges) == NormalGraph(packages)
  {
    var g := Adjacency(packages.Keys, edges);
    forall n | n in packages ensures g[n] == NormalGraph(packages)[n] {
      forall d | d in NormalGraph(packages)[n] ensures d in g[n] {
        assert (n, d) in edges;
      }
    }
  }

  function CycleFindings(names: seq<string>): (r: seq<Finding>)
    ensures |r| == |names|
  {
    seq(|names|, i requires 0 <= i < |names| => CycleThrough(names[i]))
  }

  lemma CycleFindingsIs(names: seq<string>, f: Finding)
    ensures f in CycleFindings(names) <==> f.CycleThrough? && f.name in names
  {
    if f.CycleThrough? && f.name in names {
      var i :| 0 <= i < |names| && names[i] == f.name;
      assert CycleFindings(names)[i] == f;
    }
  }

  /** What the findings say. */
  ghost predicate Reported(packages: Packages, expected: set<string>, forbidden: set<Edge>, errors: seq<Finding>) {
    && (WrongPackages in errors <==> packages.Keys != expected)
    && (forall a, b :: ForbiddenEdge(a, b) in errors <==> NormalEdge(packages, (a, b)) && (a, b) in forbidden)
    && (forall n :: CycleThrough(n) in errors ==> Leads(NormalGraph(packages), n, n))
  }

  lemma FindingsAre(packages: Packages, expected: set<string>, forbidden: set<Edge>, errors: seq<Finding>,
                    wrong: seq<Finding>, edges: set<Edge>, reports: seq<string>)
    requires wrong == if packages.Keys != expected then [WrongPackages] else []
    requires forall e :: e in edges <==> NormalEdge(packages, e)
    requires forall n :: n in reports ==> Leads(NormalGraph(packages), n, n)
    requires forall f :: f in errors <==>
               f in wrong || Flags(f, edges, forbidden) || (f.CycleThrough? && f.name in reports)
    ensures Reported(packages, expected, forbidden, errors)
  {}

  method RunGate(packages: Packages, expected: set<string>, forbidden: set<Edge>) returns (errors: seq<Finding>)
    ensures errors == [] <==>
              && packages.Keys == expected
              && (forall e :: NormalEdge(packages, e) ==> e !in forbidden)
              && !HasCycle(NormalGraph(packages))
    ensures Reported(packages, expected, forbidden, errors)
  {
    var wrong := if packages.Keys != expected then [WrongPackages] else [];
    var edges, flagged := CollectEdges(packages, forbidden, wrong);
    AdjacencyIsNormalGraph(packages, edges);
    var reports;
    ghost var finish;
    reports, finish := WalkAll(Adjacency(packages.Keys, edges));
    errors := flagged + CycleFindings(reports);
    forall f
      ensures f in errors <==> f in wrong || Flags(f, edges, forbidden) || (f.CycleThrough? && f.name in reports)
    {
      CycleFindingsIs(reports, f);
    }
    FindingsAre(packages, expected, forbidden, errors, wrong, edges, reports);
  }

  /**
   The exit status of the script: success exactly on the expected packages with no
   forbidden edge and no directed cycle of normal edges.
   */
  method Verify(packages: Packages) returns (ok: bool)
    ensures ok <==>
              && packages.Keys == EXPECTED
              && (forall e :: NormalEdge(packages, e) ==> e !in FORBIDDEN)
              && !HasCycle(NormalGraph(packages))
  {
    var errors := RunGate(packages, EXPECTED, FORBIDDEN);
    ok := errors == [];
  }
}
