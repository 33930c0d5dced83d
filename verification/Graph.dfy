/**
 * crates/monitord/src/graph.rs: building the dependency graph, rejecting cycles by a
 * three-colour depth-first search, and ordering startup by Kahn's algorithm.
 *
 * Hash maps and hash sets are iterated in an arbitrary order, so each iteration picks the next
 * element nondeterministically and the contracts hold for every choice.
 */
module Graph {
  import opened Outcomes
  import opened Manifests
  import opened Walks

  datatype GraphError =
    | CircularDependency(cycle: seq<ServiceName>)
    | MissingDependency(service: ServiceName, dep: ServiceName)

  datatype DependencyGraph = DependencyGraph(
    services: map<ServiceName, ServiceManifest>,
    dependents: Edges,
    dependencies: Edges
  )

  /** The shape every built graph has, cyclic or not: closed, and `dependents` is the transpose. */
  ghost predicate WellFormed(g: DependencyGraph) {
    && g.services.Keys == g.dependents.Keys == g.dependencies.Keys
    && Closed(g.dependencies)
    && (forall a, b :: Edge(g.dependents, b, a) <==> Edge(g.dependencies, a, b))
    && (forall n :: n in g.services ==> g.services[n].name == n)
  }

  // ---------------------------------------------------------------------------
  // Construction

  ghost predicate Named(list: seq<ServiceManifest>, n: ServiceName) {
    exists i :: 0 <= i < |list| && list[i].name == n
  }

  /** Some manifest called `n` lists `d` among its dependencies. */
  ghost predicate Lists(list: seq<ServiceManifest>, n: ServiceName, d: ServiceName) {
    exists i :: 0 <= i < |list| && list[i].name == n && d in list[i].dependencies
  }

  ghost predicate NothingMissing(list: seq<ServiceManifest>) {
    forall n, d :: Lists(list, n, d) ==> Named(list, d)
  }

  /** The names are those of the manifests; a repeated name stands for its last manifest. */
  ghost predicate LastWins(m: map<ServiceName, ServiceManifest>, list: seq<ServiceManifest>) {
    && (forall n :: n in m <==> Named(list, n))
    && (forall n :: n in m ==> IsLast(list, n, m[n]))
  }

  ghost predicate IsLast(list: seq<ServiceManifest>, n: ServiceName, s: ServiceManifest) {
    exists i :: 0 <= i < |list| && list[i] == s && s.name == n && forall k :: i < k < |list| ==> list[k].name != n
  }

  ghost predicate BuiltFrom(g: DependencyGraph, list: seq<ServiceManifest>) {
    && WellFormed(g)
    && LastWins(g.services, list)
    && (forall n, d :: Edge(g.dependencies, n, d) <==> Lists(list, n, d))
  }

  /** The dependency relation the manifests describe. */
  ghost function Described(list: seq<ServiceManifest>): (r: Edges)
    ensures forall n :: n in r <==> Named(list, n)
    ensures forall n, d :: Edge(r, n, d) <==> Lists(list, n, d)
  {
    map i | 0 <= i < |list| ::
      list[i].name := set k, d | 0 <= k < |list| && list[k].name == list[i].name && d in list[k].dependencies :: d
  }

  lemma ListsExtend(list: seq<ServiceManifest>, i: nat, n: ServiceName, d: ServiceName)
    requires i < |list|
    ensures Lists(list[..i + 1], n, d) <==> Lists(list[..i], n, d) || (list[i].name == n && d in list[i].dependencies)
  {
    var shorter, longer := list[..i], list[..i + 1];
    if Lists(shorter, n, d) {
      var k :| 0 <= k < i && shorter[k].name == n && d in shorter[k].dependencies;
      assert longer[k] == shorter[k];
    }
    if list[i].name == n && d in list[i].dependencies {
      assert longer[i] == list[i];
    }
    if Lists(longer, n, d) {
      var k :| 0 <= k <= i && longer[k].name == n && d in longer[k].dependencies;
      assert k < i ==> shorter[k] == longer[k];
    }
  }

  lemma NamedExtend(list: seq<ServiceManifest>, i: nat, n: ServiceName)
    requires i < |list|
    ensures Named(list[..i + 1], n) <==> Named(list[..i], n) || list[i].name == n
  {
    var shorter, longer := list[..i], list[..i + 1];
    if Named(shorter, n) {
      var k :| 0 <= k < i && shorter[k].name == n;
      assert longer[k] == shorter[k];
    }
    assert longer[i] == list[i];
    if Named(longer, n) {
      var k :| 0 <= k <= i && longer[k].name == n;
      assert k < i ==> shorter[k] == longer[k];
    }
  }

  lemma LastExtend(list: seq<ServiceManifest>, i: nat, n: ServiceName, s: ServiceManifest)
    requires i < |list|
    requires if list[i].name == n then s == list[i] else IsLast(list[..i], n, s)
    ensures IsLast(list[..i + 1], n, s)
  {
    var shorter, longer := list[..i], list[..i + 1];
    if list[i].name == n {
      assert longer[i] == s;
    } else {
      var k :| 0 <= k < i && shorter[k] == s && s.name == n && forall m :: k < m < i ==> shorter[m].name != n;
      forall m | k < m < |longer|
        ensures longer[m].name != n
      {
        assert m < i ==> longer[m] == shorter[m];
      }
      assert longer[k] == s;
    }
  }

  method CollectServices(list: seq<ServiceManifest>) returns (m: map<ServiceName, ServiceManifest>)
    ensures LastWins(m, list)
  {
    m := map[];
    for i := 0 to |list|
      invariant LastWins(m, list[..i])
    {
      forall n { NamedExtend(list, i, n); }
      forall n | n == list[i].name || n in m {
        LastExtend(list, i, n, if n == list[i].name then list[i] else m[n]);
      }
      m := m[list[i].name := list[i]];
    }
    assert list[..|list|] == list;
  }

  /** `entry(key).or_default().insert(value)`. */
  function AddEdge(e: Edges, key: ServiceName, value: ServiceName): (r: Edges)
    ensures r.Keys == e.Keys + {key}
    ensures forall a, b :: Edge(r, a, b) <==> Edge(e, a, b) || (a == key && b == value)
  {
    e[key := (if key in e then e[key] else {}) + {value}]
  }

  method EmptyEdges(list: seq<ServiceManifest>) returns (e: Edges)
    ensures forall n :: n in e <==> Named(list, n)
    ensures forall a, b :: !Edge(e, a, b)
  {
    e := map[];
    for i := 0 to |list|
      invariant forall n :: n in e <==> Named(list[..i], n)
      invariant forall n :: n in e ==> e[n] == {}
    {
      forall n { NamedExtend(list, i, n); }
      if list[i].name !in e {
        e := e[list[i].name := {}];
      }
    }
    assert list[..|list|] == list;
  }

  /** The error names the first listed dependency that no manifest provides. */
  ghost predicate FirstMissing(list: seq<ServiceManifest>, service: ServiceName, dep: ServiceName) {
    exists i, j :: 0 <= i < |list| && 0 <= j < |list[i].dependencies| && FirstMissingAt(list, i, j, service, dep)
  }

  ghost predicate FirstMissingAt(list: seq<ServiceManifest>, i: nat, j: nat, service: ServiceName, dep: ServiceName)
    requires i < |list| && j < |list[i].dependencies|
  {
    && list[i].name == service && list[i].dependencies[j] == dep && !Named(list, dep)
    && (forall n, d :: Lists(list[..i], n, d) ==> Named(list, d))
    && (forall d :: d in list[i].dependencies[..j] ==> Named(list, d))
  }

  /** The inner loop: one manifest's edges, or the position of its first missing dependency. */
  method AddService(svc: ServiceManifest, services: map<ServiceName, ServiceManifest>, deps0: Edges, dependents0: Edges)
    returns (missing: Option<nat>, deps: Edges, dependents: Edges)
    requires deps0.Keys == dependents0.Keys == services.Keys && svc.name in services
    ensures missing.Some? ==>
      && missing.value < |svc.dependencies| && svc.dependencies[missing.value] !in services
      && forall d :: d in svc.dependencies[..missing.value] ==> d in services
    ensures missing.None? ==>
      && deps.Keys == dependents.Keys == services.Keys
      && (forall d :: d in svc.dependencies ==> d in services)
      && Extended(deps0, dependents0, deps, dependents, svc)
  {
    deps, dependents := deps0, dependents0;
    for j := 0 to |svc.dependencies|
      invariant deps.Keys == dependents.Keys == services.Keys
      invariant forall d :: d in svc.dependencies[..j] ==> d in services
      invariant forall n, d :: Edge(deps, n, d) <==> Edge(deps0, n, d) || (n == svc.name && d in svc.dependencies[..j])
      invariant forall n, d ::
        Edge(dependents, d, n) <==> Edge(dependents0, d, n) || (n == svc.name && d in svc.dependencies[..j])
    {
      var dep := svc.dependencies[j];
      if dep !in services {
        return Some(j), deps, dependents;
      }
      deps := AddEdge(deps, svc.name, dep);
      dependents := AddEdge(dependents, dep, svc.name);
      assert svc.dependencies[..j + 1] == svc.dependencies[..j] + [dep];
    }
    assert svc.dependencies[..|svc.dependencies|] == svc.dependencies;
    missing := None;
  }

  /** Both maps hold exactly the edges listed by these manifests. */
  ghost predicate Records(deps: Edges, dependents: Edges, names: set<ServiceName>, list: seq<ServiceManifest>) {
    && deps.Keys == dependents.Keys == names
    && (forall n, d :: Edge(deps, n, d) <==> Lists(list, n, d))
    && (forall n, d :: Edge(dependents, d, n) <==> Lists(list, n, d))
    && (forall n, d :: Lists(list, n, d) ==> d in names)
  }

  /** One manifest's edges have been added to both maps. */
  ghost predicate Extended(deps0: Edges, dependents0: Edges, deps: Edges, dependents: Edges, svc: ServiceManifest) {
    && (forall n, d :: Edge(deps, n, d) <==> Edge(deps0, n, d) || (n == svc.name && d in svc.dependencies))
    && (forall n, d :: Edge(dependents, d, n) <==> Edge(dependents0, d, n) || (n == svc.name && d in svc.dependencies))
  }

  lemma RecordsExtend(list: seq<ServiceManifest>, i: nat, names: set<ServiceName>,
                      deps0: Edges, dependents0: Edges, deps: Edges, dependents: Edges)
    requires i < |list| && Records(deps0, dependents0, names, list[..i])
    requires deps.Keys == dependents.Keys == names
    requires Extended(deps0, dependents0, deps, dependents, list[i])
    requires forall d :: d in list[i].dependencies ==> d in names
    ensures Records(deps, dependents, names, list[..i + 1])
  {
    var longer := list[..i + 1];
    forall n, d
      ensures Edge(deps, n, d) <==> Lists(longer, n, d)
      ensures Edge(dependents, d, n) <==> Lists(longer, n, d)
      ensures Lists(longer, n, d) ==> d in names
    {
      ListsExtend(list, i, n, d);
    }
  }

  lemma MissingFound(list: seq<ServiceManifest>, i: nat, j: nat, names: set<ServiceName>)
    requires i < |list| && j < |list[i].dependencies|
    requires forall n :: n in names <==> Named(list, n)
    requires forall n, d :: Lists(list[..i], n, d) ==> d in names
    requires list[i].dependencies[j] !in names
    requires forall d :: d in list[i].dependencies[..j] ==> d in names
    ensures !NothingMissing(list) && FirstMissing(list, list[i].name, list[i].dependencies[j])
  {
    var dep := list[i].dependencies[j];
    assert Lists(list, list[i].name, dep);
    assert FirstMissingAt(list, i, j, list[i].name, dep);
  }

  /** The two nested loops that fill both adjacency maps. */
  method BuildEdges(list: seq<ServiceManifest>, services: map<ServiceName, ServiceManifest>)
    returns (r: Result<(Edges, Edges), GraphError>)
    requires LastWins(services, list)
    ensures r.Ok? <==> NothingMissing(list)
    ensures r.Err? ==> r.error.MissingDependency? && FirstMissing(list, r.error.service, r.error.dep)
    ensures r.Ok? ==> Records(r.value.0, r.value.1, services.Keys, list)
  {
    var deps := EmptyEdges(list);
    var dependents := EmptyEdges(list);
    for i := 0 to |list|
      invariant Records(deps, dependents, services.Keys, list[..i])
    {
      ghost var deps0, dependents0 := deps, dependents;
      var missing;
      missing, deps, dependents := AddService(list[i], services, deps, dependents);
      if missing.Some? {
        MissingFound(list, i, missing.value, services.Keys);
        return Err(MissingDependency(list[i].name, list[i].dependencies[missing.value]));
      }
      RecordsExtend(list, i, services.Keys, deps0, dependents0, deps, dependents);
    }
    assert list[..|list|] == list;
    return Ok((deps, dependents));
  }

  /**
   * `DependencyGraph::new`.  It succeeds exactly when every named dependency exists and the
   * described relation has no cycle, whatever order the hash maps are iterated in.
   */
  method New(list: seq<ServiceManifest>) returns (r: Result<DependencyGraph, GraphError>)
    ensures r.Ok? <==> NothingMissing(list) && Acyclic(Described(list))
    ensures r.Ok? ==> BuiltFrom(r.value, list) && Acyclic(r.value.dependencies)
    ensures r.Err? ==>
      match r.error
      case MissingDependency(service, dep) => FirstMissing(list, service, dep)
      case CircularDependency(cycle) =>
        NothingMissing(list) && Distinct(cycle) && IsCycle(Described(list), cycle)
  {
    var services := CollectServices(list);
    var edges := BuildEdges(list, services);
    if edges.Err? {
      return Err(edges.error);
    }
    var graph := DependencyGraph(services, edges.value.1, edges.value.0);
    SameEdges(graph.dependencies, Described(list));
    var verdict := VerifyNoCycles(graph);
    match verdict {
      case Some(cycle) => return Err(CircularDependency(cycle));
      case None => return Ok(graph);
    }
  }

  lemma SameEdges(a: Edges, b: Edges)
    requires a.Keys == b.Keys && forall x, y :: Edge(a, x, y) <==> Edge(b, x, y)
    ensures a == b
  {
    forall x | x in a
      ensures a[x] == b[x]
    {
      forall y ensures y in a[x] <==> y in b[x] {
        assert Edge(a, x, y) <==> Edge(b, x, y);
      }
    }
  }

  // ---------------------------------------------------------------------------
  // Cycle detection

  datatype Color = Unvisited | InProgress | Done

  function Unvisiteds(color: map<ServiceName, Color>): set<ServiceName> {
    set n | n in color && color[n] == Unvisited
  }

  /**
   * What the search keeps: the path is exactly the in-progress nodes, each depending on the
   * next, and the finished nodes (in order of finishing) are ordered.
   */
  ghost predicate Searching(edges: Edges, color: map<ServiceName, Color>, path: seq<ServiceName>,
                            finished: seq<ServiceName>) {
    && color.Keys == edges.Keys
    && Distinct(path) && (path != [] ==> IsWalk(edges, path))
    && Ordered(edges, finished)
    && (forall n :: n in path <==> n in color && color[n] == InProgress)
    && (forall n :: n in finished <==> n in color && color[n] == Done)
  }

  /** `path.iter().position(|n| n == dep)`. */
  method Position(path: seq<ServiceName>, dep: ServiceName) returns (r: Option<nat>)
    ensures r.Some? <==> dep in path
    ensures r.Some? ==> r.value < |path| && path[r.value] == dep && dep !in path[..r.value]
  {
    for i := 0 to |path|
      invariant dep !in path[..i]
    {
      if path[i] == dep {
        return Some(i);
      }
    }
    return None;
  }

  /** `dfs_cycle_detect`: `None` is the source's `Ok(())`. */
  method DfsCycleDetect(g: DependencyGraph, node: ServiceName, color0: map<ServiceName, Color>, path0: seq<ServiceName>,
                        ghost finished0: seq<ServiceName>)
    returns (r: Option<seq<ServiceName>>, color: map<ServiceName, Color>, path: seq<ServiceName>,
             ghost finished: seq<ServiceName>)
    requires WellFormed(g)
    requires Searching(g.dependencies, color0, path0, finished0)
    requires node in color0 && color0[node] == Unvisited
    requires path0 != [] ==> Edge(g.dependencies, path0[|path0| - 1], node)
    ensures r.Some? ==> Distinct(r.value) && IsCycle(g.dependencies, r.value)
    ensures r.None? ==> path == path0 && Searching(g.dependencies, color, path, finished)
    ensures r.None? ==> node in finished
    ensures r.None? ==> finished0 <= finished
    ensures r.None? ==> Unvisiteds(color) <= Unvisiteds(color0)
    decreases Unvisiteds(color0)
  {
    hide Ordered, Distinct, IsWalk, IsCycle, WellFormed, Searching;
    color, path, finished := color0[node := InProgress], path0 + [node], finished0;
    EnterNode(g.dependencies, color0, path0, finished0, node);
    var rest := g.dependencies[node];
    while rest != {}
      invariant rest <= g.dependencies[node]
      invariant path == path0 + [node] && finished0 <= finished
      invariant Searching(g.dependencies, color, path, finished)
      invariant Unvisiteds(color) < Unvisiteds(color0)
      invariant forall d :: d in g.dependencies[node] - rest ==> d in finished
      decreases rest
    {
      var dep :| dep in rest;
      rest := rest - {dep};
      assert Edge(g.dependencies, node, dep);
      KnowNeighbour(g, color, path, finished, dep, node);
      if color[dep] == InProgress {
        var start := Position(path, dep);
        var cycle := path[start.value..];
        PathTailIsCycle(g.dependencies, path, start.value);
        return Some(cycle), color, path, finished;
      }
      if color[dep] == Unvisited {
        ghost var earlier := finished;
        r, color, path, finished := DfsCycleDetect(g, dep, color, path, finished);
        if r.Some? {
          return;
        }
        PrefixMembers(earlier, finished);
      }
    }
    FinishNode(g.dependencies, color, path0, finished, node);
    color, path, finished := color[node := Done], path[..|path| - 1], finished + [node];
    assert path == path0;
    r := None;
  }

  /** Each colour of a dependency says where it is. */
  lemma KnowNeighbour(g: DependencyGraph, color: map<ServiceName, Color>, path: seq<ServiceName>,
                      finished: seq<ServiceName>, dep: ServiceName, node: ServiceName)
    requires WellFormed(g) && Searching(g.dependencies, color, path, finished)
    requires Edge(g.dependencies, node, dep)
    ensures dep in color
    ensures color[dep] == InProgress <==> dep in path
    ensures color[dep] == Done <==> dep in finished
    ensures Distinct(path) && (path != [] ==> IsWalk(g.dependencies, path))
  {
  }

  lemma PrefixMembers(a: seq<ServiceName>, b: seq<ServiceName>)
    requires a <= b
    ensures forall n :: n in a ==> n in b
  {
    assert forall i :: 0 <= i < |a| ==> a[i] == b[i];
  }

  lemma PathTailIsCycle(edges: Edges, path: seq<ServiceName>, k: nat)
    requires IsWalk(edges, path) && Distinct(path) && k < |path| && Edge(edges, path[|path| - 1], path[k])
    ensures Distinct(path[k..]) && IsCycle(edges, path[k..])
  {
  }

  lemma EnterNode(edges: Edges, color: map<ServiceName, Color>, path: seq<ServiceName>, finished: seq<ServiceName>,
                  node: ServiceName)
    requires Searching(edges, color, path, finished)
    requires node in color && color[node] == Unvisited
    requires path != [] ==> Edge(edges, path[|path| - 1], node)
    ensures node in edges && Searching(edges, color[node := InProgress], path + [node], finished)
    ensures Unvisiteds(color[node := InProgress]) < Unvisiteds(color)
  {
    assert node in Unvisiteds(color);
    assert node !in path && node !in finished;
  }

  lemma FinishNode(edges: Edges, color: map<ServiceName, Color>, path0: seq<ServiceName>, finished: seq<ServiceName>,
                   node: ServiceName)
    requires Searching(edges, color, path0 + [node], finished)
    requires forall d :: d in edges[node] ==> d in finished
    ensures Searching(edges, color[node := Done], path0, finished + [node])
  {
    var path := path0 + [node];
    assert node in path && node !in finished;
    assert forall i :: 0 <= i < |path0| ==> path[i] == path0[i];
    assert forall n :: n in path <==> n in path0 || n == node;
    assert node !in path0 by {
      assert forall i :: 0 <= i < |path0| ==> path[i] != path[|path0|];
    }
    OrderedExtend(edges, finished, node);
  }

  lemma OrderedExtend(edges: Edges, s: seq<ServiceName>, n: ServiceName)
    requires Ordered(edges, s) && n in edges && n !in s && forall d :: d in edges[n] ==> d in s
    ensures Ordered(edges, s + [n])
  {
    var t := s + [n];
    forall i, d | 0 <= i < |t| && d in edges[t[i]]
      ensures d in t[..i]
    {
      assert t[..i] == s[..i];
      assert s[..|s|] == s;
    }
  }

  /** `verify_no_cycles`: `None` is the source's `Ok(())`. */
  method VerifyNoCycles(g: DependencyGraph) returns (r: Option<seq<ServiceName>>)
    requires WellFormed(g)
    ensures r.None? <==> Acyclic(g.dependencies)
    ensures r.Some? ==> Distinct(r.value) && IsCycle(g.dependencies, r.value)
  {
    var color := map n | n in g.services :: Unvisited;
    var path: seq<ServiceName> := [];
    ghost var finished: seq<ServiceName> := [];
    var rest := g.services.Keys;
    while rest != {}
      invariant rest <= g.services.Keys
      invariant path == [] && Searching(g.dependencies, color, path, finished)
      invariant forall n :: n in g.services.Keys - rest ==> n in finished
      decreases rest
    {
      var name :| name in rest;
      rest := rest - {name};
      if color[name] == Unvisited {
        r, color, path, finished := DfsCycleDetect(g, name, color, path, finished);
        if r.Some? {
          return;
        }
      }
    }
    OrderedCoverIsAcyclic(g.dependencies, finished);
    return None;
  }

  lemma OrderedCoverIsAcyclic(edges: Edges, s: seq<ServiceName>)
    requires Ordered(edges, s) && forall n :: n in edges ==> n in s
    ensures Acyclic(edges)
  {
    forall c | IsCycle(edges, c)
      ensures false
    {
      var i :| 0 <= i < |s| && s[i] == c[0];
      ReachesSelf(edges, c[0]);
      OrderedAvoidsCycles(edges, s, i);
    }
  }

  // ---------------------------------------------------------------------------
  // Topological sort (Kahn)

  function Elems(s: seq<ServiceName>): set<ServiceName> {
    set x | x in s
  }

  function NamesOf(s: seq<ServiceManifest>): seq<ServiceName> {
    seq(|s|, i requires 0 <= i < |s| => s[i].name)
  }

  /** Each in-degree is the number of dependencies not yet emitted. */
  ghost predicate Counts(edges: Edges, inDegree: map<ServiceName, nat>, emitted: set<ServiceName>) {
    && inDegree.Keys == edges.Keys
    && forall n :: n in edges ==> inDegree[n] == Unmet(edges[n], emitted)
  }

  /** While the dependents of `name` are being visited, only the visited ones see it as emitted. */
  ghost predicate CountsWhile(edges: Edges, inDegree: map<ServiceName, nat>, emitted: set<ServiceName>,
                              name: ServiceName, visited: set<ServiceName>)
  {
    && inDegree.Keys == edges.Keys
    && (forall n :: n in edges && n in visited ==> inDegree[n] == Unmet(edges[n], emitted + {name}))
    && (forall n :: n in edges && n !in visited ==> inDegree[n] == Unmet(edges[n], emitted))
  }

  ghost function Unmet(deps: set<ServiceName>, emitted: set<ServiceName>): nat {
    |deps - emitted|
  }

  lemma UnmetDrops(deps: set<ServiceName>, emitted: set<ServiceName>, name: ServiceName)
    requires name in deps && name !in emitted
    ensures Unmet(deps, emitted) == Unmet(deps, emitted + {name}) + 1
  {
    var unmet := deps - emitted;
    assert unmet - {name} == deps - (emitted + {name});
    assert unmet == (unmet - {name}) + {name};
  }

  lemma UnmetSame(deps: set<ServiceName>, emitted: set<ServiceName>, name: ServiceName)
    requires name !in deps
    ensures Unmet(deps, emitted) == Unmet(deps, emitted + {name})
  {
    assert deps - emitted == deps - (emitted + {name});
  }

  lemma UnmetZero(deps: set<ServiceName>, emitted: set<ServiceName>)
    ensures Unmet(deps, emitted) == 0 <==> deps <= emitted
  {
    if deps <= emitted {
      assert deps - emitted == {};
    } else {
      var d :| d in deps && d !in emitted;
      assert d in deps - emitted;
    }
  }

  /** Exactly the nodes with in-degree zero have been emitted or are queued, each once. */
  ghost predicate Queued(inDegree: map<ServiceName, nat>, emitted: set<ServiceName>, queue: seq<ServiceName>) {
    && Distinct(queue)
    && Elems(queue) !! emitted
    && emitted + Elems(queue) == Ready(inDegree)
  }

  function Ready(inDegree: map<ServiceName, nat>): set<ServiceName> {
    set n | n in inDegree && inDegree[n] == 0
  }

  /** The queue starts with the zero-in-degree nodes in some order. */
  method InitialQueue(inDegree: map<ServiceName, nat>) returns (queue: seq<ServiceName>)
    ensures Distinct(queue) && Elems(queue) == Ready(inDegree)
  {
    queue := [];
    var rest := inDegree.Keys;
    while rest != {}
      invariant rest <= inDegree.Keys
      invariant Distinct(queue) && Elems(queue) == Ready(inDegree) - rest
      decreases rest
    {
      var n :| n in rest;
      rest := rest - {n};
      if inDegree[n] == 0 {
        assert n !in Elems(queue);
        ElemsAppend(queue, n);
        queue := queue + [n];
      }
    }
  }

  /** The inner loop: every dependent of the newly emitted `name` loses one unmet dependency. */
  method ReleaseDependents(g: DependencyGraph, name: ServiceName, inDegree0: map<ServiceName, nat>,
                           queue0: seq<ServiceName>, ghost emitted: set<ServiceName>)
    returns (inDegree: map<ServiceName, nat>, queue: seq<ServiceName>)
    requires WellFormed(g) && name in g.dependencies && name !in emitted
    requires Counts(g.dependencies, inDegree0, emitted)
    requires Queued(inDegree0, emitted + {name}, queue0)
    ensures Counts(g.dependencies, inDegree, emitted + {name})
    ensures Queued(inDegree, emitted + {name}, queue)
  {
    hide Closed, Counts, CountsWhile, Queued, Ready, Elems;
    inDegree, queue := inDegree0, queue0;
    var rest := g.dependents[name];
    CountsBegin(g.dependencies, inDegree, emitted, name);
    ghost var visited: set<ServiceName> := {};
    while rest != {}
      invariant visited !! rest && visited + rest == g.dependents[name]
      invariant CountsWhile(g.dependencies, inDegree, emitted, name, visited)
      invariant Queued(inDegree, emitted + {name}, queue)
      decreases rest
    {
      var dependent :| dependent in rest;
      Decrement(g, inDegree, emitted, name, visited, dependent);
      DecrementQueue(inDegree, emitted + {name}, queue, dependent);
      MoveOver(visited, rest, dependent);
      rest, visited := rest - {dependent}, visited + {dependent};
      inDegree := inDegree[dependent := inDegree[dependent] - 1];
      if inDegree[dependent] == 0 {
        queue := queue + [dependent];
      }
    }
    CountsSettle(g, inDegree, emitted, name);
  }

  lemma CountsBegin(edges: Edges, inDegree: map<ServiceName, nat>, emitted: set<ServiceName>, name: ServiceName)
    requires Counts(edges, inDegree, emitted)
    ensures CountsWhile(edges, inDegree, emitted, name, {})
  {
  }

  lemma MoveOver(a: set<ServiceName>, b: set<ServiceName>, x: ServiceName)
    requires x in b
    ensures (a + {x}) + (b - {x}) == a + b
  {
  }

  /** A dependent not yet visited still counts `name`: its in-degree is at least one. */
  lemma Decrement(g: DependencyGraph, inDegree: map<ServiceName, nat>, emitted: set<ServiceName>, name: ServiceName,
                  visited: set<ServiceName>, dependent: ServiceName)
    requires WellFormed(g) && name in g.dependents && name !in emitted
    requires dependent in g.dependents[name] && dependent !in visited
    requires CountsWhile(g.dependencies, inDegree, emitted, name, visited)
    ensures dependent in inDegree && inDegree[dependent] >= 1
    ensures CountsWhile(g.dependencies, inDegree[dependent := inDegree[dependent] - 1], emitted, name,
                        visited + {dependent})
  {
    hide Unmet;
    assert Edge(g.dependents, name, dependent);
    assert Edge(g.dependencies, dependent, name);
    UnmetDrops(g.dependencies[dependent], emitted, name);
  }

  lemma DecrementQueue(inDegree: map<ServiceName, nat>, emitted: set<ServiceName>, queue: seq<ServiceName>,
                       dependent: ServiceName)
    requires Queued(inDegree, emitted, queue)
    requires dependent in inDegree && inDegree[dependent] >= 1
    ensures
      var lowered := inDegree[dependent := inDegree[dependent] - 1];
      Queued(lowered, emitted, if lowered[dependent] == 0 then queue + [dependent] else queue)
  {
    var lowered := inDegree[dependent := inDegree[dependent] - 1];
    assert dependent !in Ready(inDegree);
    assert dependent !in Elems(queue);
    if lowered[dependent] == 0 {
      assert Ready(lowered) == Ready(inDegree) + {dependent};
      ElemsAppend(queue, dependent);
    } else {
      assert Ready(lowered) == Ready(inDegree);
    }
  }

  lemma CountsSettle(g: DependencyGraph, inDegree: map<ServiceName, nat>, emitted: set<ServiceName>, name: ServiceName)
    requires WellFormed(g) && name in g.dependencies
    requires CountsWhile(g.dependencies, inDegree, emitted, name, g.dependents[name])
    ensures Counts(g.dependencies, inDegree, emitted + {name})
  {
    forall n | n in g.dependencies
      ensures inDegree[n] == Unmet(g.dependencies[n], emitted + {name})
    {
      assert Edge(g.dependents, name, n) <==> Edge(g.dependencies, n, name);
      if n !in g.dependents[name] {
        UnmetSame(g.dependencies[n], emitted, name);
      }
    }
  }

  lemma ElemsAppend(s: seq<ServiceName>, n: ServiceName)
    ensures Elems(s + [n]) == Elems(s) + {n}
  {
  }

  lemma CountsStart(g: DependencyGraph, inDegree: map<ServiceName, nat>)
    requires WellFormed(g) && inDegree.Keys == g.dependencies.Keys
    requires forall n :: n in inDegree ==> inDegree[n] == |g.dependencies[n]|
    ensures Counts(g.dependencies, inDegree, {})
  {
    forall n | n in g.dependencies
      ensures inDegree[n] == Unmet(g.dependencies[n], {})
    {
      assert g.dependencies[n] - {} == g.dependencies[n];
    }
  }

  lemma PopHead(edges: Edges, inDegree: map<ServiceName, nat>, emitted: set<ServiceName>, queue: seq<ServiceName>)
    requires queue != [] && Queued(inDegree, emitted, queue)
    requires Counts(edges, inDegree, emitted)
    ensures queue[0] in edges && queue[0] !in emitted && edges[queue[0]] <= emitted
    ensures Queued(inDegree, emitted + {queue[0]}, queue[1..])
  {
    HeadAndTail(queue);
    assert queue[0] in Ready(inDegree);
    UnmetZero(edges[queue[0]], emitted);
  }

  lemma HeadAndTail(queue: seq<ServiceName>)
    requires queue != [] && Distinct(queue)
    ensures Distinct(queue[1..]) && queue[0] !in Elems(queue[1..])
    ensures Elems(queue) == {queue[0]} + Elems(queue[1..])
  {
  }

  lemma NamesAppend(s: seq<ServiceManifest>, m: ServiceManifest)
    ensures NamesOf(s + [m]) == NamesOf(s) + [m.name]
  {
  }

  lemma EmitExtends(edges: Edges, names: seq<ServiceName>, name: ServiceName)
    requires Ordered(edges, names) && name in edges && name !in Elems(names) && edges[name] <= Elems(names)
    ensures Ordered(edges, names + [name]) && Elems(names + [name]) == Elems(names) + {name}
  {
    ElemsAppend(names, name);
    OrderedExtend(edges, names, name);
  }

  /**
   * `topological_sort`.  On any well-formed graph, cyclic or not, it lists once each, after all
   * its dependencies, exactly the services that cannot reach a cycle.
   */
  method TopologicalSort(g: DependencyGraph) returns (result: seq<ServiceManifest>)
    requires WellFormed(g)
    ensures Ordered(g.dependencies, NamesOf(result))
    ensures forall m :: m in result ==> m.name in g.services && g.services[m.name] == m
    ensures forall n :: n in NamesOf(result) <==> n in g.services && !ReachesCycle(g.dependencies, n)
    ensures |result| == |g.services| <==> Acyclic(g.dependencies)
  {
    result := [];
    ghost var emitted: set<ServiceName> := {};
    var inDegree: map<ServiceName, nat> := map n | n in g.services :: |g.dependencies[n]|;
    var queue := InitialQueue(inDegree);
    CountsStart(g, inDegree);
    while queue != []
      invariant forall m :: m in result ==> m.name in g.services && g.services[m.name] == m
      invariant emitted == Elems(NamesOf(result)) && emitted <= g.services.Keys
      invariant Counts(g.dependencies, inDegree, emitted)
      invariant Queued(inDegree, emitted, queue)
      invariant Ordered(g.dependencies, NamesOf(result))
      decreases g.services.Keys - emitted
    {
      PopHead(g.dependencies, inDegree, emitted, queue);
      var name := queue[0];
      queue := queue[1..];
      EmitExtends(g.dependencies, NamesOf(result), name);
      NamesAppend(result, g.services[name]);
      result := result + [g.services[name]];
      inDegree, queue := ReleaseDependents(g, name, inDegree, queue, emitted);
      emitted := emitted + {name};
    }
    SortedExactly(g.dependencies, inDegree, NamesOf(result));
    SortedCompletely(g.dependencies, NamesOf(result));
    assert |g.services| == |g.services.Keys| == |g.dependencies.Keys|;
  }

  /** When the queue runs dry, what is left over is a trap, so all of it reaches a cycle. */
  lemma SortedExactly(edges: Edges, inDegree: map<ServiceName, nat>, names: seq<ServiceName>)
    requires Closed(edges)
    requires Counts(edges, inDegree, Elems(names)) && Queued(inDegree, Elems(names), [])
    requires Ordered(edges, names)
    ensures forall n :: n in names <==> n in edges && !ReachesCycle(edges, n)
  {
    var trap := edges.Keys - Elems(names);
    LeftoverIsTrap(edges, inDegree, Elems(names));
    forall n
      ensures n in names <==> n in edges && !ReachesCycle(edges, n)
    {
      if n in names {
        var i :| 0 <= i < |names| && names[i] == n;
        OrderedAvoidsCycles(edges, names, i);
      } else if n in edges {
        TrappedWalkCloses(edges, trap, [n]);
      }
    }
  }

  lemma LeftoverIsTrap(edges: Edges, inDegree: map<ServiceName, nat>, emitted: set<ServiceName>)
    requires Closed(edges)
    requires Counts(edges, inDegree, emitted) && Queued(inDegree, emitted, [])
    ensures Trap(edges, edges.Keys - emitted)
  {
    var trap := edges.Keys - emitted;
    forall n | n in trap
      ensures HasSuccessorIn(edges, trap, n)
    {
      assert Elems([]) == {} && n !in Ready(inDegree);
      UnmetZero(edges[n], emitted);
      var d :| d in edges[n] && d !in emitted;
      assert Edge(edges, n, d) && d in trap;
    }
  }

  lemma SortedCompletely(edges: Edges, names: seq<ServiceName>)
    requires Ordered(edges, names)
    requires forall n :: n in names <==> n in edges && !ReachesCycle(edges, n)
    ensures |names| == |edges.Keys| <==> Acyclic(edges)
  {
    DistinctSize(names);
    assert Elems(names) <= edges.Keys;
    if |names| == |edges.Keys| {
      if x :| x in edges.Keys && x !in Elems(names) {
        SubsetSize(Elems(names), edges.Keys - {x});
      }
      OrderedCoverIsAcyclic(edges, names);
    }
    if Acyclic(edges) {
      assert Elems(names) == edges.Keys;
    }
  }

  lemma {:induction false} DistinctSize(s: seq<ServiceName>)
    requires Distinct(s)
    ensures |Elems(s)| == |s|
  {
    if s != [] {
      DistinctSize(s[1..]);
      assert Elems(s) == {s[0]} + Elems(s[1..]);
    }
  }

  lemma {:induction false} SubsetSize(a: set<ServiceName>, b: set<ServiceName>)
    requires a <= b
    ensures |a| <= |b|
  {
    assert b == a + (b - a);
  }
}
