/**
 scripts/verify_rdbc_dependency_boundary.py: the closure of Cargo's resolved normal
 dependencies from one package, read from loosely typed metadata.
 */
module DependencyBoundary {
  import opened Outcome
  import opened Graphs

  datatype Json =
    | Null
    | Bool(flag: bool)
    | Number(number: int)
    | Text(text: string)
    | List(items: seq<Json>)
    | Object(fields: map<string, Json>)

  datatype Failure =
    | InvalidPackages
    | NotOneRoot(found: nat)
    | NoManifest
    | WrongManifest
    | NoResolveGraph
    | InvalidNodes

  function Field(fields: map<string, Json>, name: string, default: Json): Json {
    if name in fields then fields[name] else default
  }

  predicate IsNormalKind(kind: Json) {
    kind.Object? && Field(kind.fields, "kind", Null) == Null
  }

  /** One dependency entry of a node: the package id of a normal edge. */
  function NormalId(dependency: Json): Option<string> {
    if !dependency.Object? then None
    else
      var kinds := Field(dependency.fields, "dep_kinds", List([]));
      var package := Field(dependency.fields, "pkg", Null);
      if kinds.List? && (exists i :: 0 <= i < |kinds.items| && IsNormalKind(kinds.items[i])) && package.Text?
      then Some(package.text) else None
  }

  function NormalIds(dependencies: seq<Json>): seq<string> {
    if dependencies == [] then []
    else
      var id := NormalId(dependencies[0]);
      (if id.Some? then [id.value] else []) + NormalIds(dependencies[1..])
  }

  function DependencyIds(node: map<string, Json>): seq<string> {
    var dependencies := Field(node, "deps", List([]));
    if dependencies.List? then NormalIds(dependencies.items) else []
  }

  type Nodes = map<string, map<string, Json>>

  /** The records by id; a later one with the same id replaces an earlier one. */
  function NodesById(nodes: seq<Json>): Nodes {
    if nodes == [] then map[]
    else
      var before := NodesById(nodes[..|nodes| - 1]);
      var node := nodes[|nodes| - 1];
      if node.Object? && Field(node.fields, "id", Null).Text?
      then before[Field(node.fields, "id", Null).text := node.fields] else before
  }

  ghost function NormalGraph(nodes: Nodes): Graph {
    map n | n in nodes :: set d | d in DependencyIds(nodes[n])
  }

  // ----- What the metadata says -----

  /** An entry of `dep_kinds` without a kind, or with a null one. */
  ghost predicate NoKind(kind: Json) {
    kind.Object? && ("kind" in kind.fields ==> kind.fields["kind"] == Null)
  }

  /** An entry of `deps` that names the package `d` and has an entry without a kind. */
  ghost predicate NamesNormal(dependency: Json, d: string) {
    && dependency.Object?
    && "pkg" in dependency.fields && dependency.fields["pkg"] == Text(d)
    && "dep_kinds" in dependency.fields && dependency.fields["dep_kinds"].List?
    && exists kind :: kind in dependency.fields["dep_kinds"].items && NoKind(kind)
  }

  /** The node depends on `d` other than for its tests or its build. */
  ghost predicate Depends(node: map<string, Json>, d: string) {
    && "deps" in node && node["deps"].List?
    && exists dependency :: dependency in node["deps"].items && NamesNormal(dependency, d)
  }

  ghost predicate IsRecord(node: Json, id: string) {
    node.Object? && "id" in node.fields && node.fields["id"] == Text(id)
  }

  /** The last record of an id is the one that counts. */
  ghost predicate LastRecord(nodes: seq<Json>, id: string, k: nat) {
    k < |nodes| && IsRecord(nodes[k], id) && forall j :: k < j < |nodes| ==> !IsRecord(nodes[j], id)
  }

  ghost predicate NormalEdge(nodes: seq<Json>, a: string, b: string) {
    exists k: nat :: LastRecord(nodes, a, k) && Depends(nodes[k].fields, b)
  }

  /** At least one normal edge after the other leads from `root` to `x`. */
  ghost predicate Reaches(nodes: seq<Json>, root: string, x: string) {
    exists p: seq<string> :: |p| >= 2 && p[0] == root && p[|p| - 1] == x && EdgePath(nodes, p)
  }

  ghost predicate EdgePath(nodes: seq<Json>, p: seq<string>) {
    forall i :: 0 <= i < |p| - 1 ==> NormalEdge(nodes, p[i], p[i + 1])
  }

  lemma NormalIdExactly(dependency: Json, d: string)
    ensures NormalId(dependency) == Some(d) <==> NamesNormal(dependency, d)
  {
    if dependency.Object? {
      var kinds := Field(dependency.fields, "dep_kinds", List([]));
      if kinds.List? {
        forall i | 0 <= i < |kinds.items|
          ensures IsNormalKind(kinds.items[i]) <==> NoKind(kinds.items[i])
          ensures kinds.items[i] in kinds.items
        {}
      }
    }
  }

  lemma {:induction false} NormalIdsExactly(dependencies: seq<Json>, d: string)
    ensures d in NormalIds(dependencies) <==>
            exists dependency :: dependency in dependencies && NamesNormal(dependency, d)
  {
    if dependencies != [] {
      NormalIdExactly(dependencies[0], d);
      NormalIdsExactly(dependencies[1..], d);
      assert dependencies == [dependencies[0]] + dependencies[1..];
    }
  }

  lemma DependsExactly(node: map<string, Json>, d: string)
    ensures d in DependencyIds(node) <==> Depends(node, d)
  {
    var dependencies := Field(node, "deps", List([]));
    if dependencies.List? { NormalIdsExactly(dependencies.items, d); }
  }

  /** Exactly the ids with a record have a node, which is their last record. */
  lemma {:induction false} NodesExactly(nodes: seq<Json>, id: string)
    ensures id in NodesById(nodes) <==> exists k: nat :: LastRecord(nodes, id, k)
    ensures forall k: nat :: LastRecord(nodes, id, k) ==>
              id in NodesById(nodes) && NodesById(nodes)[id] == nodes[k].fields
  {
    if nodes != [] {
      var n := |nodes| - 1;
      NodesExactly(nodes[..n], id);
      LastKept(nodes, id);
      if IsRecord(nodes[n], id) {
        assert LastRecord(nodes, id, n);
      } else if id in NodesById(nodes) {
        var k: nat :| LastRecord(nodes[..n], id, k);
        assert LastRecord(nodes, id, k);
      }
    }
  }

  lemma LastKept(nodes: seq<Json>, id: string)
    requires nodes != []
    ensures var n := |nodes| - 1;
            forall k: nat :: LastRecord(nodes, id, k) <==>
              if IsRecord(nodes[n], id) then k == n else LastRecord(nodes[..n], id, k)
  {
    var n := |nodes| - 1;
    forall k: nat
      ensures LastRecord(nodes, id, k) <==> if IsRecord(nodes[n], id) then k == n else LastRecord(nodes[..n], id, k)
    {
      if k < n { assert nodes[..n][k] == nodes[k]; }
      if !IsRecord(nodes[n], id) && LastRecord(nodes[..n], id, k) {
        forall j | k < j < |nodes| ensures !IsRecord(nodes[j], id) {
          if j < n { assert nodes[..n][j] == nodes[j]; }
        }
      }
    }
  }

  lemma ArrowExactly(nodes: seq<Json>, a: string, b: string)
    ensures Arrow(NormalGraph(NodesById(nodes)), a, b) <==> NormalEdge(nodes, a, b)
  {
    NodesExactly(nodes, a);
    if a in NodesById(nodes) { DependsExactly(NodesById(nodes)[a], b); }
    if k: nat :| LastRecord(nodes, a, k) && Depends(nodes[k].fields, b) {
      assert a in NodesById(nodes);
    }
  }

  lemma {:induction false} WalkIsPath(nodes: seq<Json>, p: seq<string>)
    ensures Walk(NormalGraph(NodesById(nodes)), p) <==> EdgePath(nodes, p)
  {
    if |p| > 1 {
      WalkIsPath(nodes, p[1..]);
      ArrowExactly(nodes, p[0], p[1]);
      PathTail(nodes, p);
    }
  }

  lemma PathTail(nodes: seq<Json>, p: seq<string>)
    requires |p| > 1
    ensures EdgePath(nodes, p) <==> NormalEdge(nodes, p[0], p[1]) && EdgePath(nodes, p[1..])
  {
    var q := p[1..];
    if EdgePath(nodes, p) {
      forall i | 0 <= i < |q| - 1 ensures NormalEdge(nodes, q[i], q[i + 1]) {
        assert NormalEdge(nodes, p[i + 1], p[i + 1 + 1]);
      }
    }
    if NormalEdge(nodes, p[0], p[1]) && EdgePath(nodes, q) {
      forall i | 0 <= i < |p| - 1 ensures NormalEdge(nodes, p[i], p[i + 1]) {
        if i > 0 { assert NormalEdge(nodes, q[i - 1], q[i - 1 + 1]); }
      }
    }
  }

  lemma LeadsExactly(nodes: seq<Json>, root: string, x: string)
    ensures Leads(NormalGraph(NodesById(nodes)), root, x) <==> Reaches(nodes, root, x)
  {
    var g := NormalGraph(NodesById(nodes));
    if Leads(g, root, x) {
      var p :| |p| >= 2 && Walk(g, p) && p[0] == root && p[|p| - 1] == x;
      WalkIsPath(nodes, p);
    }
    if Reaches(nodes, root, x) {
      var p: seq<string> :| |p| >= 2 && p[0] == root && p[|p| - 1] == x && EdgePath(nodes, p);
      WalkIsPath(nodes, p);
    }
  }

  // ----- The worklist -----

  ghost function AllTargets(g: Graph): set<string> {
    set n, d | n in g && d in g[n] :: d
  }

  /** Everything found is reachable, and everything found but not waiting has been followed. */
  ghost predicate Progress(g: Graph, root: string, reachable: set<string>, pending: seq<string>) {
    && (forall x :: x in reachable ==> Leads(g, root, x))
    && reachable <= AllTargets(g)
    && (forall x :: x in pending ==> x == root || x in reachable)
    && (forall x :: x in g && (x == root || x in reachable) ==> x in pending || g[x] <= reachable)
  }

  /** The inner loop: `current` has been taken off the list and its targets are being followed. */
  ghost predicate Following(g: Graph, root: string, reachable: set<string>, pending: seq<string>, current: string) {
    && (forall x :: x in reachable ==> Leads(g, root, x))
    && reachable <= AllTargets(g)
    && (forall x :: x in pending ==> x == root || x in reachable)
    && (forall x :: x in g && x != current && (x == root || x in reachable) ==> x in pending || g[x] <= reachable)
  }

  method Follow(ghost g: Graph, ghost root: string, ghost current: string,
                ids: seq<string>, before: set<string>, waiting: seq<string>)
    returns (reachable: set<string>, pending: seq<string>)
    requires current in g && (current == root || Leads(g, root, current))
    requires forall d :: d in ids <==> d in g[current]
    requires Following(g, root, before, waiting, current)
    ensures Progress(g, root, reachable, pending)
    ensures before <= reachable && (reachable == before ==> pending == waiting)
  {
    reachable, pending := before, waiting;
    for i := 0 to |ids|
      invariant Following(g, root, reachable, pending, current)
      invariant forall j :: 0 <= j < i ==> ids[j] in reachable
      invariant before <= reachable && (reachable == before ==> pending == waiting)
    {
      var id := ids[i];
      if id !in reachable {
        assert id in ids && Arrow(g, current, id);
        TargetReached(g, root, current, id);
        reachable := reachable + {id};
        pending := pending + [id];
      }
    }
    assert g[current] <= reachable;
  }

  lemma TargetReached(g: Graph, root: string, current: string, id: string)
    requires Arrow(g, current, id) && (current == root || Leads(g, root, current))
    ensures Leads(g, root, id) && id in AllTargets(g)
  {
    if current == root { ArrowLeads(g, root, id); } else { LeadsArrow(g, root, current, id); }
  }

  lemma TakeLast(g: Graph, root: string, reachable: set<string>, pending: seq<string>)
    requires Progress(g, root, reachable, pending) && pending != []
    ensures var rest, current := pending[..|pending| - 1], pending[|pending| - 1];
            && (current == root || Leads(g, root, current))
            && Following(g, root, reachable, rest, current)
            && (current !in g ==> Progress(g, root, reachable, rest))
  {
    var rest, current := pending[..|pending| - 1], pending[|pending| - 1];
    assert pending == rest + [current];
    assert current in pending;
  }

  /** The result of the exhausted worklist. */
  lemma Exhausted(g: Graph, root: string, reachable: set<string>)
    requires Progress(g, root, reachable, [])
    ensures forall x :: x in reachable <==> Leads(g, root, x)
  {
    forall x | Leads(g, root, x) ensures x in reachable {
      ClosedHoldsAll(g, root, reachable, x);
    }
  }

  method FollowAll(nodes: Nodes, root: string) returns (reachable: set<string>)
    ensures forall x :: x in reachable <==> Leads(NormalGraph(nodes), root, x)
  {
    ghost var g := NormalGraph(nodes);
    reachable := {};
    var pending := [root];
    while pending != []
      invariant Progress(g, root, reachable, pending)
      decreases AllTargets(g) - reachable, |pending|
    {
      TakeLast(g, root, reachable, pending);
      var current := pending[|pending| - 1];
      pending := pending[..|pending| - 1];
      if current in nodes {
        reachable, pending := Follow(g, root, current, DependencyIds(nodes[current]), reachable, pending);
      }
    }
    Exhausted(g, root, reachable);
  }

  // ----- The gate -----

  /** The resolve graph is there, and its nodes are a list, the empty one when they are left out. */
  ghost predicate HasNodes(metadata: map<string, Json>, nodes: seq<Json>) {
    && "resolve" in metadata && metadata["resolve"].Object?
    && var graph := metadata["resolve"].fields;
       if "nodes" in graph then graph["nodes"] == List(nodes) else nodes == []
  }

  function ResolvedNodes(metadata: map<string, Json>): (r: Result<seq<Json>, Failure>)
    ensures forall nodes :: r == Ok(nodes) <==> HasNodes(metadata, nodes)
    ensures r == Err(NoResolveGraph) <==> !("resolve" in metadata && metadata["resolve"].Object?)
  {
    var resolve := Field(metadata, "resolve", Null);
    if !resolve.Object? then Err(NoResolveGraph)
    else
      var nodes := Field(resolve.fields, "nodes", List([]));
      if nodes.List? then Ok(nodes.items) else Err(InvalidNodes)
  }

  /**
   Exactly the ids reachable from the root by one or more normal edges of the metadata, ids
   without a node record included; the root itself only when it lies on a cycle.
   */
  method ReachableDependencies(metadata: map<string, Json>, root: string) returns (r: Result<set<string>, Failure>)
    ensures r.Err? <==> forall nodes :: !HasNodes(metadata, nodes)
    ensures r == Err(NoResolveGraph) <==> !("resolve" in metadata && metadata["resolve"].Object?)
    ensures r.Ok? ==> forall nodes :: HasNodes(metadata, nodes) ==>
              forall x :: x in r.value <==> Reaches(nodes, root, x)
  {
    var resolved := ResolvedNodes(metadata);
    if resolved.Err? {
      return Err(resolved.error);
    }
    var reachable := FollowAll(NodesById(resolved.value), root);
    forall x ensures x in reachable <==> Reaches(resolved.value, root, x) {
      LeadsExactly(resolved.value, root, x);
    }
    assert HasNodes(metadata, resolved.value);
    r := Ok(reachable);
  }

  // ----- The package the gate starts from -----

  const ROOT: string := "druid-rdbc"

  /** The field is left out or a list. */
  ghost predicate HasList(metadata: map<string, Json>, name: string, items: seq<Json>) {
    if name in metadata then metadata[name] == List(items) else items == []
  }

  function ListField(metadata: map<string, Json>, name: string): (r: Option<seq<Json>>)
    ensures forall items :: r == Some(items) <==> HasList(metadata, name, items)
  {
    var value := Field(metadata, name, List([]));
    if value.List? then Some(value.items) else None
  }

  /** The last record of the id has this text in this field. */
  ghost predicate Says(packages: seq<Json>, id: string, field: string, text: string) {
    exists k: nat ::
      LastRecord(packages, id, k) && field in packages[k].fields && packages[k].fields[field] == Text(text)
  }

  function TextOf(byId: Nodes, id: string, field: string): Option<string> {
    if id !in byId then None
    else
      var value := Field(byId[id], field, Null);
      if value.Text? then Some(value.text) else None
  }

  lemma TextOfExactly(packages: seq<Json>, id: string, field: string, text: string)
    ensures TextOf(NodesById(packages), id, field) == Some(text) <==> Says(packages, id, field, text)
  {
    NodesExactly(packages, id);
    if TextOf(NodesById(packages), id, field) == Some(text) {
      var k: nat :| LastRecord(packages, id, k);
      assert field in packages[k].fields;
    }
  }

  function IsCandidate(byId: Nodes, member: Json): bool {
    member.Text? && TextOf(byId, member.text, "name") == Some(ROOT)
  }

  ghost predicate NamesRoot(packages: seq<Json>, member: Json) {
    member.Text? && Says(packages, member.text, "name", ROOT)
  }

  function Candidates(byId: Nodes, members: seq<Json>): (r: seq<string>)
    ensures |r| <= |members|
  {
    if members == [] then []
    else (if IsCandidate(byId, members[0]) then [members[0].text] else []) + Candidates(byId, members[1..])
  }

  /** Entry `i` of the workspace members, and no other one, names the root. */
  ghost predicate OnlyRoot(packages: seq<Json>, members: seq<Json>, i: nat) {
    && i < |members| && NamesRoot(packages, members[i])
    && forall j :: 0 <= j < |members| && j != i ==> !NamesRoot(packages, members[j])
  }

  lemma {:induction false} NoCandidate(packages: seq<Json>, members: seq<Json>)
    ensures Candidates(NodesById(packages), members) == [] <==>
            forall i :: 0 <= i < |members| ==> !NamesRoot(packages, members[i])
  {
    if members != [] {
      NoCandidate(packages, members[1..]);
      if members[0].Text? { TextOfExactly(packages, members[0].text, "name", ROOT); }
      assert forall i :: 0 <= i < |members| - 1 ==> members[1..][i] == members[i + 1];
      assert forall i :: 0 < i < |members| ==> members[i] == members[1..][i - 1];
    }
  }

  lemma {:induction false} OneCandidate(packages: seq<Json>, members: seq<Json>, id: string)
    ensures Candidates(NodesById(packages), members) == [id] <==>
            exists i: nat :: OnlyRoot(packages, members, i) && members[i] == Text(id)
  {
    if members != [] {
      var rest := members[1..];
      NoCandidate(packages, rest);
      OneCandidate(packages, rest, id);
      if members[0].Text? { TextOfExactly(packages, members[0].text, "name", ROOT); }
      if NamesRoot(packages, members[0]) {
        RootFirst(packages, members);
        var first, later := members[0].text, Candidates(NodesById(packages), rest);
        Alone(first, later, id);
        assert OnlyRoot(packages, members, 0) && members[0] == Text(id) <==> first == id && later == [];
      } else {
        RootLater(packages, members, id);
      }
    }
  }

  lemma Alone(first: string, later: seq<string>, id: string)
    ensures [first] + later == [id] <==> first == id && later == []
  {
    var all := [first] + later;
    assert all[0] == first && all[1..] == later;
  }

  lemma RootFirst(packages: seq<Json>, members: seq<Json>)
    requires members != [] && NamesRoot(packages, members[0])
    ensures OnlyRoot(packages, members, 0) <==>
            forall i :: 0 <= i < |members[1..]| ==> !NamesRoot(packages, members[1..][i])
    ensures forall i: nat :: OnlyRoot(packages, members, i) ==> i == 0
  {
    assert forall i :: 0 < i < |members| ==> members[i] == members[1..][i - 1];
  }

  lemma RootLater(packages: seq<Json>, members: seq<Json>, id: string)
    requires members != [] && !NamesRoot(packages, members[0])
    ensures (exists i: nat :: OnlyRoot(packages, members, i) && members[i] == Text(id)) <==>
            exists i: nat :: OnlyRoot(packages, members[1..], i) && members[1..][i] == Text(id)
  {
    forall i: nat ensures OnlyRoot(packages, members[1..], i) <==> OnlyRoot(packages, members, i + 1) {
      assert forall j :: 0 < j < |members| ==> members[j] == members[1..][j - 1];
    }
    if i: nat :| OnlyRoot(packages, members, i) && members[i] == Text(id) {
      assert OnlyRoot(packages, members[1..], i - 1) <==> OnlyRoot(packages, members, i - 1 + 1);
    }
    if i: nat :| OnlyRoot(packages, members[1..], i) && members[1..][i] == Text(id) {
      assert OnlyRoot(packages, members, i + 1);
    }
  }

  /** One workspace member names the root, with the expected manifest. */
  ghost predicate RootIs(metadata: map<string, Json>, isExpected: string -> bool, id: string) {
    exists packages, members :: RootIn(metadata, packages, members, isExpected, id)
  }

  ghost predicate RootIn(metadata: map<string, Json>, packages: seq<Json>, members: seq<Json>,
                         isExpected: string -> bool, id: string)
  {
    && HasList(metadata, "packages", packages) && HasList(metadata, "workspace_members", members)
    && (exists i: nat :: OnlyRoot(packages, members, i) && members[i] == Text(id))
    && (exists path :: Says(packages, id, "manifest_path", path) && isExpected(path))
  }

  /** `isExpected` tells whether a manifest path resolves to the one of the root crate. */
  function FindRoot(metadata: map<string, Json>, isExpected: string -> bool): Result<string, Failure> {
    var packages := ListField(metadata, "packages");
    var members := ListField(metadata, "workspace_members");
    if packages.None? || members.None? then Err(InvalidPackages)
    else
      var byId := NodesById(packages.value);
      var candidates := Candidates(byId, members.value);
      if |candidates| != 1 then Err(NotOneRoot(|candidates|))
      else
        var path := TextOf(byId, candidates[0], "manifest_path");
        if path.None? then Err(NoManifest)
        else if !isExpected(path.value) then Err(WrongManifest)
        else Ok(candidates[0])
  }

  lemma FindRootExactly(metadata: map<string, Json>, isExpected: string -> bool, id: string)
    ensures FindRoot(metadata, isExpected) == Ok(id) <==> RootIs(metadata, isExpected, id)
  {
    var packages, members := ListField(metadata, "packages"), ListField(metadata, "workspace_members");
    if packages.Some? && members.Some? {
      OneCandidate(packages.value, members.value, id);
      ManifestExactly(packages.value, id, isExpected);
      var candidates := Candidates(NodesById(packages.value), members.value);
      assert candidates == [id] <==> |candidates| == 1 && candidates[0] == id;
      assert RootIn(metadata, packages.value, members.value, isExpected, id) <==>
             FindRoot(metadata, isExpected) == Ok(id);
    }
  }

  lemma ManifestExactly(packages: seq<Json>, id: string, isExpected: string -> bool)
    ensures (exists path :: Says(packages, id, "manifest_path", path) && isExpected(path)) <==>
            var path := TextOf(NodesById(packages), id, "manifest_path");
            path.Some? && isExpected(path.value)
  {
    forall path
      ensures TextOf(NodesById(packages), id, "manifest_path") == Some(path) <==>
              Says(packages, id, "manifest_path", path)
    {
      TextOfExactly(packages, id, "manifest_path", path);
    }
  }

  // ----- The gate -----

  /** No package with a forbidden name is reachable. */
  ghost predicate Within(packages: seq<Json>, nodes: seq<Json>, root: string, forbidden: set<string>) {
    forall id, name :: Says(packages, id, "name", name) && name in forbidden ==> !Reaches(nodes, root, id)
  }

  /** Passes, or reports forbidden packages, when the metadata is whole and has one root. */
  method CheckBoundary(metadata: map<string, Json>, isExpected: string -> bool, forbidden: set<string>)
    returns (r: Result<bool, Failure>, ghost root: string)
    ensures r.Ok? <==> (exists id :: RootIs(metadata, isExpected, id)) && exists nodes :: HasNodes(metadata, nodes)
    ensures r.Ok? ==> RootIs(metadata, isExpected, root)
    ensures r.Ok? ==> forall packages, nodes :: HasList(metadata, "packages", packages) && HasNodes(metadata, nodes) ==>
              (r.value <==> Within(packages, nodes, root, forbidden))
  {
    root := "";
    var found := FindRoot(metadata, isExpected);
    forall id ensures found == Ok(id) <==> RootIs(metadata, isExpected, id) {
      FindRootExactly(metadata, isExpected, id);
    }
    if found.Err? {
      return Err(found.error), root;
    }
    root := found.value;
    var reachable := ReachableDependencies(metadata, found.value);
    if reachable.Err? {
      return Err(reachable.error), root;
    }
    var packages := ListField(metadata, "packages").value;
    var byId := NodesById(packages);
    var reached := set id | id in reachable.value && NamesForbidden(byId, id, forbidden);
    NoneReached(packages, reachable.value, reached, forbidden);
    r := Ok(reached == {});
  }

  function NamesForbidden(byId: Nodes, id: string, forbidden: set<string>): bool {
    var name := TextOf(byId, id, "name");
    name.Some? && name.value in forbidden
  }

  lemma NoneReached(packages: seq<Json>, reachable: set<string>, reached: set<string>, forbidden: set<string>)
    requires reached == set id | id in reachable && NamesForbidden(NodesById(packages), id, forbidden)
    ensures reached == {} <==>
            forall id, name :: Says(packages, id, "name", name) && name in forbidden ==> id !in reachable
  {
    forall id, name
      ensures TextOf(NodesById(packages), id, "name") == Some(name) <==> Says(packages, id, "name", name)
    {
      TextOfExactly(packages, id, "name", name);
    }
    if reached == {} {
      forall id, name | Says(packages, id, "name", name) && name in forbidden ensures id !in reachable {
        assert TextOf(NodesById(packages), id, "name") == Some(name);
        assert id !in reached;
      }
    } else {
      var id :| id in reached;
      assert Says(packages, id, "name", TextOf(NodesById(packages), id, "name").value);
    }
  }
}
