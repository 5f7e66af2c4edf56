/**
 Order in which the static initialisers of the loaded binaries run
 (src/environment.rs): Kahn's algorithm over hash maps whose iteration order is
 arbitrary. Every `:|` below stands for such an order.
 */
module LoadOrder {
  import opened Common

  datatype Node = Node(name: string, dependencies: seq<string>)

  datatype Result = Ok(order: seq<nat>) | Err(name: string)

  /** A dependency edge: `dependent` must be initialised after `dylib`. */
  datatype Edge = Edge(dylib: nat, dependent: nat)

  const USR_LIB := "/usr/lib/"

  function StripUsrLib(path: string): string {
    if USR_LIB <= path then path[|USR_LIB|..] else path
  }

  /** A dependency is the name of a dylib, or that behind the directory of the system's libraries. */
  predicate Means(dependency: string, name: string) {
    dependency == "/usr/lib/" + name || (!("/usr/lib/" <= dependency) && dependency == name)
  }

  lemma {:induction false} StripMeans(dependency: string, name: string)
    ensures StripUsrLib(dependency) == name <==> Means(dependency, name)
  {
    var prefix := "/usr/lib/";
    if prefix <= dependency {
      assert dependency == prefix + dependency[|prefix|..];
    }
    if dependency == prefix + name {
      assert dependency[|prefix|..] == name;
    }
  }

  // ----- what the load order means

  /** Names are keys of a hash map, so of several nodes with one name the last stands for them all. */
  ghost predicate IsVertex(graph: seq<Node>, v: nat) {
    v < |graph| && forall j :: v < j < |graph| ==> graph[j].name != graph[v].name
  }

  ghost predicate Declares(graph: seq<Node>, i: nat, k: nat, a: nat)
    requires a < |graph|
  {
    i < |graph| && k < |graph[i].dependencies| && Means(graph[i].dependencies[k], graph[a].name)
  }

  /** `b` depends on `a`: some node named like `b` lists `a`. Unbundled dylibs have no vertex. */
  ghost predicate DependsOn(graph: seq<Node>, b: nat, a: nat) {
    IsVertex(graph, a) && IsVertex(graph, b) &&
    exists i: nat, k: nat :: Declares(graph, i, k, a) && graph[i].name == graph[b].name
  }

  ghost predicate IsChain(graph: seq<Node>, p: seq<nat>) {
    |p| > 0 && (|p| > 1 ==> DependsOn(graph, p[0], p[1]) && IsChain(graph, p[1..]))
  }

  ghost predicate IsCycle(graph: seq<Node>, p: seq<nat>) {
    |p| >= 2 && IsChain(graph, p) && p[0] == p[|p| - 1]
  }

  ghost predicate Acyclic(graph: seq<Node>) {
    forall p :: !IsCycle(graph, p)
  }

  ghost predicate LeadsToCycle(graph: seq<Node>, v: nat, p: seq<nat>, c: seq<nat>) {
    IsChain(graph, p) && p[0] == v && IsCycle(graph, c) && c[0] == p[|p| - 1]
  }

  ghost function Elements(s: seq<nat>): set<nat> {
    set v | v in s
  }

  ghost predicate IsLoadOrder(graph: seq<Node>, order: seq<nat>) {
    && NoRepeats(order)
    && (forall v: nat :: v in order <==> IsVertex(graph, v))
    && forall i, j :: 0 <= i < |order| && 0 <= j < |order| && DependsOn(graph, order[i], order[j]) ==> j < i
  }

  // ----- an ordered graph has no cycle

  lemma {:induction false} ChainGoesBack(graph: seq<Node>, order: seq<nat>, p: seq<nat>) returns (i: nat, j: nat)
    requires IsLoadOrder(graph, order) && IsChain(graph, p) && |p| >= 2
    ensures j < i < |order| && order[i] == p[0] && order[j] == p[|p| - 1]
  {
    assert DependsOn(graph, p[0], p[1]);
    i :| i < |order| && order[i] == p[0];
    if |p| == 2 {
      j :| 0 <= j < |order| && order[j] == p[1];
    } else {
      var m;
      m, j := ChainGoesBack(graph, order, p[1..]);
      assert DependsOn(graph, order[i], order[m]);
    }
  }

  lemma {:induction false} OrderedIsAcyclic(graph: seq<Node>, order: seq<nat>)
    requires IsLoadOrder(graph, order)
    ensures Acyclic(graph)
  {
    forall p | IsCycle(graph, p)
      ensures false
    {
      var i, j := ChainGoesBack(graph, order, p);
      assert false;
    }
  }

  // ----- vertices that all depend on each other hold a cycle

  ghost predicate Waits(graph: seq<Node>, stuck: set<nat>, b: nat) {
    exists a :: a in stuck && DependsOn(graph, b, a)
  }

  lemma {:induction false} WalkBack(graph: seq<Node>, stuck: set<nat>, v: nat, n: nat) returns (p: seq<nat>)
    requires v in stuck
    requires forall b {:trigger Waits(graph, stuck, b)} :: b in stuck ==> Waits(graph, stuck, b)
    ensures |p| == n + 1 && IsChain(graph, p) && p[0] == v && forall x :: x in p ==> x in stuck
    decreases n
  {
    if n == 0 {
      p := [v];
    } else {
      assert Waits(graph, stuck, v);
      var a :| a in stuck && DependsOn(graph, v, a);
      var rest := WalkBack(graph, stuck, a, n - 1);
      p := [v] + rest;
      assert p[1..] == rest;
    }
  }

  lemma {:induction false} Pigeonhole(s: seq<nat>, pool: set<nat>)
    requires forall x :: x in s ==> x in pool
    requires NoRepeats(s)
    ensures |s| <= |pool|
  {
    if s != [] {
      var last := s[|s| - 1];
      var front := s[..|s| - 1];
      assert forall x :: x in front ==> x in pool - {last};
      Pigeonhole(front, pool - {last});
    }
  }

  lemma {:induction false} ChainPart(graph: seq<Node>, p: seq<nat>, i: nat, j: nat)
    requires IsChain(graph, p) && i < j <= |p|
    ensures IsChain(graph, p[i..j])
  {
    if i > 0 {
      ChainPart(graph, p[1..], i - 1, j - 1);
      assert p[1..][i - 1..j - 1] == p[i..j];
    } else if j > 1 {
      ChainPart(graph, p[1..], 0, j - 1);
      assert p[1..][0..j - 1] == p[i..j][1..];
    }
  }

  lemma {:induction false} Repetition(s: seq<nat>, pool: set<nat>) returns (i: nat, j: nat)
    requires |s| > |pool| && forall x :: x in s ==> x in pool
    ensures i < j < |s| && s[i] == s[j]
  {
    if NoRepeats(s) {
      Pigeonhole(s, pool);
      assert false;
    }
    i, j :| 0 <= i < j < |s| && s[i] == s[j];
  }

  lemma {:induction false} StuckReachesCycle(graph: seq<Node>, stuck: set<nat>, v: nat)
      returns (p: seq<nat>, c: seq<nat>)
    requires v in stuck
    requires forall b {:trigger Waits(graph, stuck, b)} :: b in stuck ==> Waits(graph, stuck, b)
    ensures LeadsToCycle(graph, v, p, c)
  {
    var walk := WalkBack(graph, stuck, v, |stuck|);
    var i, j := Repetition(walk, stuck);
    p, c := walk[0..i + 1], walk[i..j + 1];
    ChainPart(graph, walk, 0, i + 1);
    ChainPart(graph, walk, i, j + 1);
  }

  // ----- bookkeeping of the algorithm

  /** The dependents pushed for `a`, in order. */
  function Targets(edges: seq<Edge>, a: nat): seq<nat> {
    if edges == [] then []
    else
      var last := edges[|edges| - 1];
      Targets(edges[..|edges| - 1], a) + if last.dylib == a then [last.dependent] else []
  }

  /** How many edges into `b` come from a vertex that is not done. */
  function Pending(edges: seq<Edge>, b: nat, done: set<nat>): nat {
    if edges == [] then 0
    else
      var last := edges[|edges| - 1];
      Pending(edges[..|edges| - 1], b, done) + if last.dependent == b && last.dylib !in done then 1 else 0
  }

  lemma {:induction false} FinishVertex(edges: seq<Edge>, b: nat, done: set<nat>, a: nat)
    requires a !in done
    ensures Pending(edges, b, done) == Pending(edges, b, done + {a}) + multiset(Targets(edges, a))[b]
  {
    if edges != [] {
      FinishVertex(edges[..|edges| - 1], b, done, a);
    }
  }

  lemma {:induction false} NothingPending(edges: seq<Edge>, b: nat, done: set<nat>)
    ensures Pending(edges, b, done) == 0 <==> forall e :: e in edges && e.dependent == b ==> e.dylib in done
  {
    if edges != [] {
      var front, last := edges[..|edges| - 1], edges[|edges| - 1];
      NothingPending(front, b, done);
      assert edges == front + [last];
      assert forall e :: e in edges <==> e in front || e == last;
    }
  }

  lemma {:induction false} TargetsAreVertices(edges: seq<Edge>, a: nat, x: nat)
    ensures x in Targets(edges, a) ==> Edge(a, x) in edges
  {
    if edges != [] {
      TargetsAreVertices(edges[..|edges| - 1], a, x);
    }
  }

  ghost predicate EdgesOf(graph: seq<Node>, edges: seq<Edge>) {
    forall a: nat, b: nat :: Edge(a, b) in edges <==> DependsOn(graph, b, a)
  }

  ghost predicate DependentsOf(dependents: map<nat, seq<nat>>, edges: seq<Edge>) {
    forall a: nat :: Targets(edges, a) == if a in dependents then dependents[a] else []
  }

  /** The degrees while the edges into `targets` are still to be taken off. */
  ghost predicate DegreesWith(degrees: map<nat, int>, edges: seq<Edge>, done: set<nat>, targets: seq<nat>) {
    && (forall x :: x in targets ==> x in degrees)
    && forall v :: v in degrees ==> degrees[v] == Pending(edges, v, done) + multiset(targets)[v]
  }

  ghost predicate DegreesOf(degrees: map<nat, int>, edges: seq<Edge>, done: set<nat>) {
    forall b :: b in degrees ==> degrees[b] == Pending(edges, b, done)
  }

  /** Name lookup as the hash map of names does it. */
  ghost predicate Indexed(graph: seq<Node>, nodeToIndex: map<string, nat>) {
    && (forall n :: n in nodeToIndex ==> IsVertex(graph, nodeToIndex[n]) && graph[nodeToIndex[n]].name == n)
    && (forall i :: 0 <= i < |graph| ==> graph[i].name in nodeToIndex)
  }

  method IndexNames(graph: seq<Node>) returns (nodeToIndex: map<string, nat>)
    ensures Indexed(graph, nodeToIndex)
  {
    nodeToIndex := map[];
    for idx := 0 to |graph|
      invariant forall n :: n in nodeToIndex ==>
        nodeToIndex[n] < idx && graph[nodeToIndex[n]].name == n && forall j :: nodeToIndex[n] < j < idx ==>
          graph[j].name != n
      invariant forall j :: 0 <= j < idx ==> graph[j].name in nodeToIndex
    {
      nodeToIndex := nodeToIndex[graph[idx].name := idx];
    }
  }

  /** Only dependencies listed before entry `k` of node `n` count. */
  ghost predicate DeclaredBefore(graph: seq<Node>, n: nat, k: nat, b: nat, a: nat) {
    IsVertex(graph, a) && IsVertex(graph, b) &&
    exists i: nat, j: nat :: Declares(graph, i, j, a) && graph[i].name == graph[b].name && (i < n || (i == n && j < k))
  }

  ghost predicate EdgesBefore(graph: seq<Node>, n: nat, k: nat, edges: seq<Edge>) {
    forall a: nat, b: nat :: Edge(a, b) in edges <==> DeclaredBefore(graph, n, k, b, a)
  }

  lemma {:induction false} NextEntry(graph: seq<Node>, nodeToIndex: map<string, nat>, n: nat, k: nat,
      before: seq<Edge>, after: seq<Edge>)
    requires n < |graph| && k < |graph[n].dependencies| && Indexed(graph, nodeToIndex)
    requires EdgesBefore(graph, n, k, before)
    requires var dependency := StripUsrLib(graph[n].dependencies[k]);
             after == before + if dependency in nodeToIndex then
               [Edge(nodeToIndex[dependency], nodeToIndex[graph[n].name])] else []
    ensures EdgesBefore(graph, n, k + 1, after)
  {
    var dependency := StripUsrLib(graph[n].dependencies[k]);
    forall name
      ensures dependency == name <==> Means(graph[n].dependencies[k], name)
    {
      StripMeans(graph[n].dependencies[k], name);
    }
    hide Means;
    forall a: nat, b: nat
      ensures Edge(a, b) in after <==> DeclaredBefore(graph, n, k + 1, b, a)
    {
      if Edge(a, b) in after && Edge(a, b) !in before {
        assert Declares(graph, n, k, a);
      }
      if DeclaredBefore(graph, n, k + 1, b, a) && !DeclaredBefore(graph, n, k, b, a) {
        assert Declares(graph, n, k, a);
        assert nodeToIndex[dependency] == a && nodeToIndex[graph[n].name] == b;
      }
    }
  }

  lemma {:induction false} NextNode(graph: seq<Node>, n: nat, edges: seq<Edge>)
    requires n < |graph| && EdgesBefore(graph, n, |graph[n].dependencies|, edges)
    ensures EdgesBefore(graph, n + 1, 0, edges)
  {
    forall a: nat, b: nat
      ensures DeclaredBefore(graph, n, |graph[n].dependencies|, b, a) <==> DeclaredBefore(graph, n + 1, 0, b, a)
    {
    }
  }

  /** One dependency edge is recorded: `before` gains `edge` at its end. */
  method AddEdge(dependents0: map<nat, seq<nat>>, degrees0: map<nat, int>, edge: Edge, ghost before: seq<Edge>)
    returns (dependents: map<nat, seq<nat>>, degrees: map<nat, int>)
    requires DependentsOf(dependents0, before) && DegreesOf(degrees0, before, {}) && edge.dependent in degrees0
    ensures DependentsOf(dependents, before + [edge]) && DegreesOf(degrees, before + [edge], {})
    ensures degrees.Keys == degrees0.Keys
  {
    assert (before + [edge])[..|before|] == before;
    var pushed := (if edge.dylib in dependents0 then dependents0[edge.dylib] else []) + [edge.dependent];
    dependents := dependents0[edge.dylib := pushed];
    degrees := degrees0[edge.dependent := degrees0[edge.dependent] + 1];
  }

  method CollectEdges(graph: seq<Node>, nodeToIndex: map<string, nat>)
    returns (dependents: map<nat, seq<nat>>, degrees: map<nat, int>, ghost edges: seq<Edge>)
    requires Indexed(graph, nodeToIndex)
    ensures EdgesOf(graph, edges) && DependentsOf(dependents, edges) && DegreesOf(degrees, edges, {})
    ensures forall v: nat :: v in degrees <==> IsVertex(graph, v)
  {
    dependents, edges := map[], [];
    degrees := map idx | idx in nodeToIndex.Values :: 0;
    forall v: nat
      ensures v in degrees <==> IsVertex(graph, v)
    {
      if IsVertex(graph, v) {
        assert nodeToIndex[graph[v].name] == v;
      }
    }
    for n := 0 to |graph|
      invariant EdgesBefore(graph, n, 0, edges)
      invariant DependentsOf(dependents, edges) && DegreesOf(degrees, edges, {})
      invariant forall v: nat :: v in degrees <==> IsVertex(graph, v)
    {
      var binIndex := nodeToIndex[graph[n].name];
      var paths := graph[n].dependencies;
      for k := 0 to |paths|
        invariant EdgesBefore(graph, n, k, edges)
        invariant DependentsOf(dependents, edges) && DegreesOf(degrees, edges, {})
        invariant forall v: nat :: v in degrees <==> IsVertex(graph, v)
      {
        var dependency := StripUsrLib(paths[k]);
        ghost var before := edges;
        if dependency in nodeToIndex {
          var edge := Edge(nodeToIndex[dependency], binIndex);
          dependents, degrees := AddEdge(dependents, degrees, edge, edges);
          edges := edges + [edge];
        }
        NextEntry(graph, nodeToIndex, n, k, before, edges);
      }
      NextNode(graph, n, edges);
    }
    AllEntries(graph, edges);
  }

  lemma {:induction false} AllEntries(graph: seq<Node>, edges: seq<Edge>)
    requires EdgesBefore(graph, |graph|, 0, edges)
    ensures EdgesOf(graph, edges)
  {
    forall a: nat, b: nat
      ensures DeclaredBefore(graph, |graph|, 0, b, a) <==> DependsOn(graph, b, a)
    {
    }
  }

  method Leaves(degrees: map<nat, int>) returns (queue: seq<nat>)
    ensures NoRepeats(queue) && forall v :: v in queue <==> v in degrees && degrees[v] == 0
  {
    queue := [];
    var rest := degrees.Keys;
    while rest != {}
      invariant rest <= degrees.Keys && NoRepeats(queue)
      invariant forall v :: v in queue <==> v in degrees - rest && degrees[v] == 0
    {
      var v :| v in rest;
      rest := rest - {v};
      if degrees[v] == 0 {
        queue := queue + [v];
      }
    }
  }

  /** What holds between two turns of the main loop, `done` being the vertices already sorted or being finished. */
  ghost predicate Sorting(degrees: map<nat, int>, sorted: seq<nat>, queue: seq<nat>) {
    && NoRepeats(sorted + queue)
    && (forall v :: v in degrees ==> (degrees[v] == 0 <==> v in sorted + queue))
    && (forall v :: v in sorted + queue ==> v in degrees)
  }

  ghost predicate DylibsFirst(edges: seq<Edge>, sorted: seq<nat>) {
    forall i, a :: 0 <= i < |sorted| && Edge(a, sorted[i]) in edges ==> a in sorted[..i]
  }

  lemma {:induction false} EnqueueLeaf(sorted: seq<nat>, queue: seq<nat>, v: nat)
    requires NoRepeats(sorted + queue) && v !in sorted + queue
    ensures NoRepeats(sorted + (queue + [v]))
    ensures forall x :: x in sorted + (queue + [v]) <==> x in sorted + queue || x == v
  {
    assert sorted + (queue + [v]) == (sorted + queue) + [v];
  }

  method FinishDependents(degrees0: map<nat, int>, queue0: seq<nat>, targets: seq<nat>,
                          ghost edges: seq<Edge>, ghost sorted: seq<nat>, ghost done: set<nat>)
    returns (degrees: map<nat, int>, queue: seq<nat>)
    requires Sorting(degrees0, sorted, queue0)
    requires DegreesWith(degrees0, edges, done, targets)
    ensures Sorting(degrees, sorted, queue) && degrees.Keys == degrees0.Keys
    ensures DegreesOf(degrees, edges, done)
  {
    degrees, queue := degrees0, queue0;
    for k := 0 to |targets|
      invariant Sorting(degrees, sorted, queue) && degrees.Keys == degrees0.Keys
      invariant DegreesWith(degrees, edges, done, targets[k..])
    {
      var dependant := targets[k];
      assert targets[k..] == [dependant] + targets[k + 1..];
      degrees := degrees[dependant := degrees[dependant] - 1];
      assert degrees[dependant] == Pending(edges, dependant, done) + multiset(targets[k + 1..])[dependant];
      if degrees[dependant] == 0 {
        EnqueueLeaf(sorted, queue, dependant);
        queue := queue + [dependant];
      }
    }
    assert targets[|targets|..] == [];
  }

  lemma {:induction false} LeafIsReady(graph: seq<Node>, edges: seq<Edge>, dependents: map<nat, seq<nat>>,
      degrees: map<nat, int>,
                    sorted: seq<nat>, queue: seq<nat>, done: set<nat>)
    requires EdgesOf(graph, edges) && DependentsOf(dependents, edges) && DegreesOf(degrees, edges, done)
    requires Sorting(degrees, sorted, queue) && DylibsFirst(edges, sorted) && queue != []
    requires forall v: nat :: v in degrees <==> IsVertex(graph, v)
    requires done == Elements(sorted)
    ensures queue[0] !in done && queue[0] in degrees
    ensures Sorting(degrees, sorted + [queue[0]], queue[1..]) && DylibsFirst(edges, sorted + [queue[0]])
    ensures queue[0] in dependents ==> DegreesWith(degrees, edges, done + {queue[0]}, dependents[queue[0]])
    ensures queue[0] !in dependents ==> DegreesOf(degrees, edges, done + {queue[0]})
  {
    var node, before := queue[0], sorted + queue;
    var targets := if node in dependents then dependents[node] else [];
    assert targets == Targets(edges, node);
    assert (sorted + [node]) + queue[1..] == before;
    assert node == before[|sorted|];
    forall i | 0 <= i < |sorted|
      ensures sorted[i] != node
    {
      assert before[i] == sorted[i];
    }
    assert node in before;
    NothingPending(edges, node, done);
    forall i, a | 0 <= i < |sorted + [node]| && Edge(a, (sorted + [node])[i]) in edges
      ensures a in (sorted + [node])[..i]
    {
      if i < |sorted| {
        assert Edge(a, sorted[i]) in edges;
        assert (sorted + [node])[..i] == sorted[..i];
      } else {
        assert Edge(a, node).dylib in done;
        assert (sorted + [node])[..i] == sorted;
      }
    }
    forall v | v in degrees
      ensures degrees[v] == Pending(edges, v, done + {node}) + multiset(targets)[v]
    {
      FinishVertex(edges, v, done, node);
    }
    forall x | x in targets
      ensures x in degrees
    {
      TargetsAreVertices(edges, node, x);
    }
  }

  method SortVertices(ghost graph: seq<Node>, ghost edges: seq<Edge>, dependents: map<nat, seq<nat>>,
      degrees0: map<nat, int>)
    returns (sorted: seq<nat>, degrees: map<nat, int>)
    requires EdgesOf(graph, edges) && DependentsOf(dependents, edges) && DegreesOf(degrees0, edges, {})
    requires forall v: nat :: v in degrees0 <==> IsVertex(graph, v)
    ensures Sorting(degrees, sorted, []) && DylibsFirst(edges, sorted)
    ensures forall v: nat :: v in degrees <==> IsVertex(graph, v)
    ensures DegreesOf(degrees, edges, set v | v in sorted)
  {
    degrees, sorted := degrees0, [];
    var leafNodes := Leaves(degrees);
    assert sorted + leafNodes == leafNodes;
    ghost var done: set<nat> := {};
    while leafNodes != []
      invariant Sorting(degrees, sorted, leafNodes) && DylibsFirst(edges, sorted)
      invariant forall v: nat :: v in degrees <==> IsVertex(graph, v)
      invariant done == Elements(sorted)
      invariant DegreesOf(degrees, edges, done)
      decreases degrees.Keys - done
    {
      var node := leafNodes[0];
      LeafIsReady(graph, edges, dependents, degrees, sorted, leafNodes, done);
      leafNodes := leafNodes[1..];
      sorted := sorted + [node];
      done := done + {node};
      if node in dependents {
        degrees, leafNodes := FinishDependents(degrees, leafNodes, dependents[node], edges, sorted, done);
      }
    }
  }

  /**
   The result is a load order of all vertices exactly when the bundled
   dependencies are acyclic; otherwise the error names a binary that depends,
   directly or not, on a cycle.
   */
  method GenerateBinaryLoadOrder(graph: seq<Node>) returns (r: Result)
    ensures r.Ok? <==> Acyclic(graph)
    ensures r.Ok? ==> IsLoadOrder(graph, r.order)
    ensures r.Err? ==> exists v: nat, p, c :: v < |graph| && graph[v].name == r.name && LeadsToCycle(graph, v, p, c)
  {
    var nodeToIndex := IndexNames(graph);
    var dependents, degrees, edges := CollectEdges(graph, nodeToIndex);
    var sortedIndices;
    sortedIndices, degrees := SortVertices(graph, edges, dependents, degrees);
    assert sortedIndices + [] == sortedIndices;
    if index :| index in degrees && degrees[index] > 0 {
      ghost var p, c := Stuck(graph, edges, degrees, Elements(sortedIndices), index);
      assert IsCycle(graph, c);
      return Err(graph[index].name);
    }
    AllSorted(graph, edges, degrees, sortedIndices);
    OrderedIsAcyclic(graph, sortedIndices);
    return Ok(sortedIndices);
  }

  lemma {:induction false} Stuck(graph: seq<Node>, edges: seq<Edge>, degrees: map<nat, int>, done: set<nat>, index: nat)
    returns (p: seq<nat>, c: seq<nat>)
    requires EdgesOf(graph, edges) && DegreesOf(degrees, edges, done)
    requires forall v: nat :: v in degrees <==> IsVertex(graph, v)
    requires forall v :: v in degrees ==> (degrees[v] == 0 <==> v in done)
    requires index in degrees && degrees[index] > 0
    ensures LeadsToCycle(graph, index, p, c)
  {
    var stuck := degrees.Keys - done;
    forall b | b in stuck
      ensures Waits(graph, stuck, b)
    {
      NothingPending(edges, b, done);
      var e :| e in edges && e.dependent == b && e.dylib !in done;
      assert e == Edge(e.dylib, b);
      assert DependsOn(graph, b, e.dylib);
    }
    p, c := StuckReachesCycle(graph, stuck, index);
  }

  lemma {:induction false} AllSorted(graph: seq<Node>, edges: seq<Edge>, degrees: map<nat, int>, sorted: seq<nat>)
    requires EdgesOf(graph, edges) && Sorting(degrees, sorted, []) && DylibsFirst(edges, sorted)
    requires forall v: nat :: v in degrees <==> IsVertex(graph, v)
    requires forall v :: v in degrees ==> degrees[v] == 0
    ensures IsLoadOrder(graph, sorted)
  {
    assert sorted + [] == sorted;
    forall i, j | 0 <= i < |sorted| && 0 <= j < |sorted| && DependsOn(graph, sorted[i], sorted[j])
      ensures j < i
    {
      assert Edge(sorted[j], sorted[i]) in edges;
    }
  }

  /** With distinct names the vertices are all the binaries, so a load order is a permutation of all indices. */
  lemma {:induction false} DistinctNamesAllLoaded(graph: seq<Node>, order: seq<nat>)
    requires IsLoadOrder(graph, order)
    requires forall i, j :: 0 <= i < j < |graph| ==> graph[i].name != graph[j].name
    ensures |order| == |graph| && forall v: nat :: v < |graph| <==> v in order
  {
    assert forall v: nat :: v < |graph| ==> IsVertex(graph, v);
    Pigeonhole(order, Indices(|graph|));
    CoverCount(order, Indices(|graph|));
  }

  function Indices(n: nat): (r: set<nat>)
    ensures |r| == n && forall v: nat :: v in r <==> v < n
  {
    if n == 0 then {} else Indices(n - 1) + {n - 1}
  }

  lemma {:induction false} CoverCount(s: seq<nat>, pool: set<nat>)
    requires forall x :: x in pool ==> x in s
    ensures |pool| <= |s|
  {
    if s != [] {
      CoverCount(s[1..], pool - {s[0]});
    }
  }
}
