// Dependency resolution for install planning: edge filtering, breadth-first reachability and
// Kahn's algorithm with lexicographic tie-breaking.
module DependencyGraph {
  import opened JsText
  import opened Sorting
  import opened DependencyOrder

  datatype Edge = Edge(fromId: Id, toId: Id, required: bool)

  datatype ConflictKind = CycleDetected | MissingDependency | DuplicateEdge

  datatype Conflict = Conflict(kind: ConflictKind, ids: seq<Id>)

  datatype Resolution = Resolution(ok: bool, order: seq<Id>, reachable: set<Id>, conflicts: seq<Conflict>)

  const ARROW: CodeUnit := 0x2192

  /** Edges are compared by the text "from→to", so an arrow inside an id can make two edges collide. */
  function EdgeKey(e: Edge): Text {
    e.fromId + [ARROW] + e.toId
  }

  predicate IsFirst(edges: seq<Edge>, i: nat)
    requires i < |edges|
  {
    forall j :: 0 <= j < i ==> EdgeKey(edges[j]) != EdgeKey(edges[i])
  }

  /** The dependencies that survive filtering: first occurrences whose target is known. */
  function Kept(edges: seq<Edge>, known: set<Id>, n: nat): Deps
    requires n <= |edges|
  {
    set i | 0 <= i < n && IsFirst(edges, i) && edges[i].toId in known :: (edges[i].fromId, edges[i].toId)
  }

  function ConflictAt(edges: seq<Edge>, known: set<Id>, i: nat): seq<Conflict>
    requires i < |edges|
  {
    var ids := [edges[i].fromId, edges[i].toId];
    if !IsFirst(edges, i) then [Conflict(DuplicateEdge, ids)]
    else if edges[i].toId !in known && edges[i].required then [Conflict(MissingDependency, ids)]
    else []
  }

  function EdgeConflicts(edges: seq<Edge>, known: set<Id>, n: nat): seq<Conflict>
    requires n <= |edges|
  {
    if n == 0 then [] else EdgeConflicts(edges, known, n - 1) + ConflictAt(edges, known, n - 1)
  }

  function RootConflicts(roots: seq<Id>, known: set<Id>): seq<Conflict> {
    if roots == [] then [] else
    RootConflicts(roots[..|roots| - 1], known)
    + if roots[|roots| - 1] in known then [] else [Conflict(MissingDependency, [roots[|roots| - 1]])]
  }

  /** A required dependency is missing: some examined edge is required and its target is unknown. */
  ghost predicate RequiredMissing(edges: seq<Edge>, known: set<Id>) {
    exists i :: 0 <= i < |edges| && IsFirst(edges, i) && edges[i].required && edges[i].toId !in known
  }

  ghost predicate Represents(adjacency: map<Id, seq<Id>>, deps: Deps) {
    && (forall a, b :: (a, b) in deps <==> a in adjacency && b in adjacency[a])
    && (forall a :: a in adjacency ==> NoDup(adjacency[a]))
  }

  lemma {:induction false} MissingConflictIff(edges: seq<Edge>, known: set<Id>, n: nat)
    requires n <= |edges|
    ensures (exists c :: c in EdgeConflicts(edges, known, n) && c.kind == MissingDependency)
       <==> exists i :: 0 <= i < n && IsFirst(edges, i) && edges[i].required && edges[i].toId !in known
  {
    if n > 0 {
      MissingConflictIff(edges, known, n - 1);
      var init, last := EdgeConflicts(edges, known, n - 1), ConflictAt(edges, known, n - 1);
      assert EdgeConflicts(edges, known, n) == init + last;
      if IsFirst(edges, n - 1) && edges[n - 1].required && edges[n - 1].toId !in known {
        assert last[0] in init + last;
      }
      if c :| c in init && c.kind == MissingDependency {
        assert c in init + last;
      }
    }
  }

  /** dependency-graph.ts, lines 55-112: adjacency lists of the kept edges and the conflicts in edge order. */
  method BuildAdjacency(edges: seq<Edge>, known: set<Id>)
    returns (adjacency: map<Id, seq<Id>>, conflicts: seq<Conflict>)
    ensures Represents(adjacency, Kept(edges, known, |edges|))
    ensures conflicts == EdgeConflicts(edges, known, |edges|)
  {
    adjacency, conflicts := map[], [];
    var seen: set<Text> := {};
    for i := 0 to |edges|
      invariant forall k :: k in seen <==> exists j :: 0 <= j < i && EdgeKey(edges[j]) == k
      invariant Represents(adjacency, Kept(edges, known, i))
      invariant conflicts == EdgeConflicts(edges, known, i)
    {
      var e := edges[i];
      var key := EdgeKey(e);
      KeptNext(edges, known, i);
      if key in seen {
        conflicts := conflicts + [Conflict(DuplicateEdge, [e.fromId, e.toId])];
        continue;
      }
      assert IsFirst(edges, i);
      seen := seen + {key};
      if e.toId !in known && e.required {
        conflicts := conflicts + [Conflict(MissingDependency, [e.fromId, e.toId])];
        continue;
      }
      if e.toId !in known {
        continue;
      }
      adjacency := AddNeighbor(adjacency, e.fromId, e.toId, Kept(edges, known, i));
    }
  }

  /** A first occurrence with a known target adds one new dependency. */
  lemma KeptNext(edges: seq<Edge>, known: set<Id>, i: nat)
    requires i < |edges|
    ensures var e, before := edges[i], Kept(edges, known, i);
            if IsFirst(edges, i) && e.toId in known
            then (e.fromId, e.toId) !in before && Kept(edges, known, i + 1) == before + {(e.fromId, e.toId)}
            else Kept(edges, known, i + 1) == before
  {
  }

  method AddNeighbor(adjacency: map<Id, seq<Id>>, a: Id, b: Id, ghost deps: Deps) returns (r: map<Id, seq<Id>>)
    requires Represents(adjacency, deps) && (a, b) !in deps
    ensures Represents(r, deps + {(a, b)})
  {
    r := adjacency;
    if a !in r {
      r := r[a := []];
    }
    r := r[a := r[a] + [b]];
  }

  lemma {:induction false} ClosedContainsReachable(deps: Deps, nodes: set<Id>, p: seq<Id>)
    requires Closed(deps, nodes) && IsPath(deps, p) && p[0] in nodes
    ensures p[|p| - 1] in nodes
  {
    ClosedPathStays(deps, nodes, p);
  }

  lemma ExtendReach(deps: Deps, roots: seq<Id>, a: Id, b: Id)
    requires ReachableFrom(deps, roots, a) && (a, b) in deps
    ensures ReachableFrom(deps, roots, b)
  {
    var r :| r in roots && Reaches(deps, r, a);
    var p :| Joins(deps, p, r, a);
    assert Joins(deps, p + [b], r, b);
  }

  method EnqueueUnvisited(neighbors: seq<Id>, visited: seq<Id>, queue0: seq<Id>) returns (queue: seq<Id>)
    ensures forall x :: x in queue <==> x in queue0 || (x in neighbors && x !in visited)
  {
    queue := queue0;
    for j := 0 to |neighbors|
      invariant forall x :: x in queue <==> x in queue0 || (x in neighbors[..j] && x !in visited)
    {
      assert neighbors[..j + 1] == neighbors[..j] + [neighbors[j]];
      if neighbors[j] !in visited {
        queue := queue + [neighbors[j]];
      }
    }
    assert neighbors[..|neighbors|] == neighbors;
  }

  /** The frontier of the search: everything known to be reachable is visited or queued. */
  ghost predicate Frontier(deps: Deps, roots: seq<Id>, visited: seq<Id>, queue: seq<Id>, universe: set<Id>) {
    && NoDup(visited)
    && (forall x :: x in visited ==> ReachableFrom(deps, roots, x) && x in universe)
    && (forall x :: x in queue ==> ReachableFrom(deps, roots, x) && x in universe)
    && (forall r :: r in roots ==> r in visited || r in queue)
    && (forall a, b :: a in visited && (a, b) in deps ==> b in visited || b in queue)
  }

  lemma FrontierStart(deps: Deps, roots: seq<Id>, universe: set<Id>)
    requires Elems(roots) <= universe
    ensures Frontier(deps, roots, [], roots, universe)
  {
    forall r | r in roots ensures ReachableFrom(deps, roots, r) && r in universe {
      assert Joins(deps, [r], r, r);
      assert r in Elems(roots);
    }
  }

  lemma FrontierSkip(deps: Deps, roots: seq<Id>, visited: seq<Id>, queue: seq<Id>, universe: set<Id>)
    requires Frontier(deps, roots, visited, queue, universe) && queue != [] && queue[0] in visited
    ensures Frontier(deps, roots, visited, queue[1..], universe)
  {
  }

  lemma FrontierVisit(deps: Deps, roots: seq<Id>, visited: seq<Id>, queue: seq<Id>, next: seq<Id>, universe: set<Id>)
    requires Frontier(deps, roots, visited, queue, universe) && queue != [] && queue[0] !in visited
    requires forall e :: e in deps ==> e.1 in universe
    requires forall x :: x in next <==> x in queue[1..] || ((queue[0], x) in deps && x !in visited + [queue[0]])
    ensures Frontier(deps, roots, visited + [queue[0]], next, universe)
  {
    assert queue == [queue[0]] + queue[1..];
    forall x | x in next ensures ReachableFrom(deps, roots, x) && x in universe {
      if x !in queue[1..] {
        ExtendReach(deps, roots, queue[0], x);
      }
    }
  }

  lemma FrontierDone(deps: Deps, roots: seq<Id>, visited: seq<Id>, universe: set<Id>)
    requires Frontier(deps, roots, visited, [], universe)
    ensures forall x :: x in visited <==> ReachableFrom(deps, roots, x)
  {
    var found := Elems(visited);
    forall x | ReachableFrom(deps, roots, x) ensures x in visited {
      var r :| r in roots && Reaches(deps, r, x);
      var p :| Joins(deps, p, r, x);
      ClosedContainsReachable(deps, found, p);
    }
  }

  /** dependency-graph.ts, lines 126-136: visiting one package. */
  method Visit(roots: seq<Id>, adjacency: map<Id, seq<Id>>, visited0: seq<Id>, current: Id, rest: seq<Id>,
               ghost deps: Deps, ghost universe: set<Id>)
    returns (visited: seq<Id>, queue: seq<Id>)
    requires Represents(adjacency, deps) && forall e :: e in deps ==> e.1 in universe
    requires current !in visited0 && Frontier(deps, roots, visited0, [current] + rest, universe)
    ensures visited == visited0 + [current]
    ensures Frontier(deps, roots, visited, queue, universe)
    ensures universe - Elems(visited) < universe - Elems(visited0)
  {
    visited, queue := visited0 + [current], rest;
    if current in adjacency {
      queue := EnqueueUnvisited(adjacency[current], visited, queue);
    }
    assert ([current] + rest)[1..] == rest;
    FrontierVisit(deps, roots, visited0, [current] + rest, queue, universe);
    assert current in [current] + rest;
    assert universe - Elems(visited) == universe - Elems(visited0) - {current};
  }

  /** dependency-graph.ts, lines 117-140: exactly the packages reachable from the roots, each once. */
  method CollectReachable(roots: seq<Id>, adjacency: map<Id, seq<Id>>, ghost deps: Deps) returns (visited: seq<Id>)
    requires Represents(adjacency, deps)
    ensures NoDup(visited)
    ensures forall x :: x in visited <==> ReachableFrom(deps, roots, x)
  {
    visited := [];
    var queue := roots;
    ghost var universe := Elems(roots) + set e | e in deps :: e.1;
    FrontierStart(deps, roots, universe);
    while queue != []
      invariant Frontier(deps, roots, visited, queue, universe)
      decreases universe - Elems(visited), |queue|
    {
      var current := queue[0];
      assert queue == [current] + queue[1..];
      if current in visited {
        FrontierSkip(deps, roots, visited, queue, universe);
        queue := queue[1..];
      } else {
        visited, queue := Visit(roots, adjacency, visited, current, queue[1..], deps, universe);
      }
    }
    FrontierDone(deps, roots, visited, universe);
  }

  // ---- Kahn's algorithm ----

  function Targets(pairs: Deps, n: Id): set<Id> {
    set e | e in pairs && e.0 == n :: e.1
  }

  /** rev maps each package to the packages that depend on it. */
  ghost predicate Reverses(rev: map<Id, seq<Id>>, pairs: Deps) {
    && (forall a, b :: (a, b) in pairs <==> b in rev && a in rev[b])
    && (forall b :: b in rev ==> NoDup(rev[b]))
  }

  ghost predicate Counts(degree: map<Id, nat>, nodes: set<Id>, pairs: Deps) {
    && degree.Keys == nodes
    && forall n :: n in nodes ==> degree[n] == |Targets(pairs, n)|
  }

  lemma TargetsAdd(pairs: Deps, a: Id, b: Id)
    requires (a, b) !in pairs
    ensures |Targets(pairs + {(a, b)}, a)| == |Targets(pairs, a)| + 1
    ensures forall n :: n != a ==> Targets(pairs + {(a, b)}, n) == Targets(pairs, n)
  {
    assert b !in Targets(pairs, a);
    assert Targets(pairs + {(a, b)}, a) == Targets(pairs, a) + {b} by {
      assert (a, b) in pairs + {(a, b)};
    }
    forall n | n != a ensures Targets(pairs + {(a, b)}, n) == Targets(pairs, n) {
    }
  }

  lemma CountOne(rev: map<Id, seq<Id>>, degree: map<Id, nat>, nodes: set<Id>, pairs: Deps, a: Id, b: Id)
    requires Reverses(rev, pairs) && Counts(degree, nodes, pairs)
    requires a in nodes && (a, b) !in pairs
    ensures Reverses(rev[b := (if b in rev then rev[b] else []) + [a]], pairs + {(a, b)})
    ensures Counts(degree[a := degree[a] + 1], nodes, pairs + {(a, b)})
  {
    TargetsAdd(pairs, a, b);
    var had := if b in rev then rev[b] else [];
    assert a !in had;
    var next := rev[b := had + [a]];
    forall x, y ensures (x, y) in pairs + {(a, b)} <==> y in next && x in next[y] {
      assert (x, y) in pairs + {(a, b)} <==> (x, y) in pairs || (x == a && y == b);
    }
  }

  ghost function NodePairs(node: Id, neighbors: seq<Id>, nodes: seq<Id>): Deps {
    set b | b in neighbors && b in nodes :: (node, b)
  }

  lemma NodePairsStep(node: Id, neighbors: seq<Id>, nodes: seq<Id>, j: nat)
    requires j < |neighbors| && NoDup(neighbors)
    ensures (node, neighbors[j]) !in NodePairs(node, neighbors[..j], nodes)
    ensures NodePairs(node, neighbors[..j + 1], nodes)
         == NodePairs(node, neighbors[..j], nodes) + if neighbors[j] in nodes then {(node, neighbors[j])} else {}
  {
  }

  lemma ReversePairsStep(nodes: seq<Id>, node: Id, neighbors: seq<Id>, j: nat, pairs0: Deps) returns (next: Deps)
    requires j < |neighbors| && NoDup(neighbors) && node in nodes
    requires forall b :: (node, b) !in pairs0
    ensures next == pairs0 + NodePairs(node, neighbors[..j + 1], nodes)
    ensures var before := pairs0 + NodePairs(node, neighbors[..j], nodes);
            && (node, neighbors[j]) !in before
            && next == if neighbors[j] in nodes then before + {(node, neighbors[j])} else before
  {
    NodePairsStep(node, neighbors, nodes, j);
    next := pairs0 + NodePairs(node, neighbors[..j + 1], nodes);
  }

  /** dependency-graph.ts, lines 164-172: one node's dependencies, reversed. */
  method ReverseNode(nodes: seq<Id>, node: Id, neighbors: seq<Id>, rev0: map<Id, seq<Id>>, degree0: map<Id, nat>,
                     ghost pairs0: Deps)
    returns (rev: map<Id, seq<Id>>, degree: map<Id, nat>)
    requires node in nodes && NoDup(neighbors)
    requires forall b :: (node, b) !in pairs0
    requires Reverses(rev0, pairs0) && Counts(degree0, Elems(nodes), pairs0)
    ensures Reverses(rev, pairs0 + NodePairs(node, neighbors, nodes))
    ensures Counts(degree, Elems(nodes), pairs0 + NodePairs(node, neighbors, nodes))
  {
    rev, degree := rev0, degree0;
    assert pairs0 + NodePairs(node, neighbors[..0], nodes) == pairs0;
    for j := 0 to |neighbors|
      invariant Reverses(rev, pairs0 + NodePairs(node, neighbors[..j], nodes))
      invariant Counts(degree, Elems(nodes), pairs0 + NodePairs(node, neighbors[..j], nodes))
    {
      var neighbor := neighbors[j];
      ghost var next := ReversePairsStep(nodes, node, neighbors, j, pairs0);
      if neighbor in nodes {
        CountOne(rev, degree, Elems(nodes), pairs0 + NodePairs(node, neighbors[..j], nodes), node, neighbor);
        rev := rev[neighbor := (if neighbor in rev then rev[neighbor] else []) + [node]];
        degree := degree[node := degree[node] + 1];
      }
    }
    assert neighbors[..|neighbors|] == neighbors;
  }

  /** dependency-graph.ts, lines 154-173: reversed adjacency and the number of pending dependencies of each node. */
  method ReverseEdges(nodes: seq<Id>, adjacency: map<Id, seq<Id>>, ghost deps: Deps)
    returns (rev: map<Id, seq<Id>>, degree: map<Id, nat>)
    requires NoDup(nodes) && Represents(adjacency, deps)
    ensures Reverses(rev, Within(deps, Elems(nodes)))
    ensures Counts(degree, Elems(nodes), Within(deps, Elems(nodes)))
  {
    rev := map[];
    degree := map n | n in nodes :: 0;
    ghost var pairs: Deps := {};
    for i := 0 to |nodes|
      invariant pairs == set e | e in deps && e.0 in nodes[..i] && e.1 in nodes
      invariant Reverses(rev, pairs) && Counts(degree, Elems(nodes), pairs)
    {
      var node := nodes[i];
      assert nodes[..i + 1] == nodes[..i] + [node];
      assert node !in nodes[..i];
      ghost var before := pairs;
      if node in adjacency {
        rev, degree := ReverseNode(nodes, node, adjacency[node], rev, degree, pairs);
        pairs := pairs + NodePairs(node, adjacency[node], nodes);
      }
      forall e ensures e in pairs <==> e in deps && e.0 in nodes[..i + 1] && e.1 in nodes {
        assert e == (e.0, e.1);
        assert e in before <==> e in deps && e.0 in nodes[..i] && e.1 in nodes;
      }
    }
    assert nodes[..|nodes|] == nodes;
    assert pairs == Within(deps, Elems(nodes));
  }

  /** The queue of Kahn's algorithm holds exactly the unsorted nodes with nothing pending. */
  ghost predicate QueueExact(queue: seq<Id>, nodes: seq<Id>, sorted: seq<Id>, pending: Deps) {
    && NoDup(queue)
    && forall n :: n in queue <==> n in nodes && n !in sorted && Targets(pending, n) == {}
  }

  lemma DischargeOne(nodes: seq<Id>, degree: map<Id, nat>, sorted: seq<Id>, queue: seq<Id>, pending: Deps,
                     n: Id, b: Id)
    requires Counts(degree, Elems(nodes), pending) && QueueExact(queue, nodes, sorted, pending)
    requires n in nodes && n !in sorted && (n, b) in pending
    ensures degree[n] >= 1
    ensures Counts(degree[n := degree[n] - 1], Elems(nodes), pending - {(n, b)})
    ensures QueueExact(if degree[n] == 1 then queue + [n] else queue, nodes, sorted, pending - {(n, b)})
  {
    var rest := pending - {(n, b)};
    assert pending == rest + {(n, b)};
    TargetsAdd(rest, n, b);
    assert b in Targets(pending, n);
    assert degree[n] == 1 <==> Targets(rest, n) == {};
  }

  /** The dependencies on packages that are not sorted yet. */
  ghost function Outstanding(w: Deps, sorted: seq<Id>): Deps {
    set e | e in w && e.1 !in sorted
  }

  lemma PendingIsOutstanding(pending: Deps, w: Deps, sorted: seq<Id>)
    requires forall a, b :: (a, b) in pending <==> (a, b) in w && b !in sorted
    ensures pending == Outstanding(w, sorted)
  {
    forall e ensures e in pending <==> e in Outstanding(w, sorted) {
      assert e == (e.0, e.1);
    }
  }

  ghost predicate PendingWhile(pending: Deps, w: Deps, sorted: seq<Id>, current: Id, discharged: seq<Id>) {
    forall a, b :: (a, b) in pending <==> (a, b) in w && ((b == current && a !in discharged) || b !in sorted)
  }

  /** dependency-graph.ts, lines 192-202: discharging one package from everything that waits for it. */
  method Discharge(nodes: seq<Id>, rev: map<Id, seq<Id>>, degree0: map<Id, nat>, current: Id, sorted: seq<Id>,
                   queue0: seq<Id>, ghost w: Deps, ghost pending0: Deps)
    returns (degree: map<Id, nat>, queue: seq<Id>)
    requires Reverses(rev, w) && forall a, b :: (a, b) in w ==> a in nodes
    requires Counts(degree0, Elems(nodes), pending0)
    requires current in sorted
    requires PendingWhile(pending0, w, sorted, current, [])
    requires forall a :: (a, current) in w ==> a !in sorted
    requires QueueExact(queue0, nodes, sorted, pending0)
    ensures Counts(degree, Elems(nodes), Outstanding(w, sorted))
    ensures QueueExact(queue, nodes, sorted, Outstanding(w, sorted))
  {
    degree, queue := degree0, queue0;
    ghost var pending := pending0;
    if current !in rev {
      PendingIsOutstanding(pending, w, sorted);
      return;
    }
    var neighbors := rev[current];
    for j := 0 to |neighbors|
      invariant PendingWhile(pending, w, sorted, current, neighbors[..j])
      invariant Counts(degree, Elems(nodes), pending)
      invariant QueueExact(queue, nodes, sorted, pending)
    {
      var neighbor := neighbors[j];
      assert neighbors[..j + 1] == neighbors[..j] + [neighbor];
      assert neighbor !in neighbors[..j];
      assert (neighbor, current) in w;
      DischargeOne(nodes, degree, sorted, queue, pending, neighbor, current);
      var deg := degree[neighbor] - 1;
      degree := degree[neighbor := deg];
      if deg == 0 {
        queue := queue + [neighbor];
      }
      pending := pending - {(neighbor, current)};
    }
    assert neighbors[..|neighbors|] == neighbors;
    PendingIsOutstanding(pending, w, sorted);
  }

  lemma ReadyIffQueued(nodes: seq<Id>, queue: seq<Id>, sorted: seq<Id>, w: Deps, pending: Deps)
    requires QueueExact(queue, nodes, sorted, pending)
    requires forall a, b :: (a, b) in pending <==> (a, b) in w && b !in sorted
    ensures forall x :: Ready(w, Elems(nodes), sorted, x) <==> x in queue
  {
    forall x ensures Ready(w, Elems(nodes), sorted, x) <==> x in queue {
      if x in queue {
        forall b | (x, b) in w ensures b in sorted {
          assert (x, b) in pending ==> b in Targets(pending, x);
        }
      }
    }
  }

  lemma LeastFirst(queue: seq<Id>)
    ensures forall y :: y in queue ==> TextLe(Sort(TextLe, queue)[0], y)
    ensures forall y :: y in Sort(TextLe, queue) <==> y in queue
    ensures NoDup(queue) ==> NoDup(Sort(TextLe, queue))
  {
    TextOrder();
    SortSorts(TextLe, queue);
    SortPermutes(TextLe, queue);
    var s := Sort(TextLe, queue);
    forall y | y in queue ensures TextLe(s[0], y) {
      assert y in s;
      TextLeTotal(s[0], s[0]);
    }
    if NoDup(queue) {
      NoDupMultiset(queue, s);
    }
  }

  lemma TextOrder()
    ensures TotalPreorder(TextLe)
  {
    forall x, y ensures TextLe(x, y) || TextLe(y, x) {
      TextLeTotal(x, y);
    }
    forall x, y, z | TextLe(x, y) && TextLe(y, z) ensures TextLe(x, z) {
      TextLeTransitive(x, y, z);
    }
  }

  /** dependency-graph.ts, lines 175-182: the nodes with nothing pending at the start. */
  method InitialQueue(nodes: seq<Id>, degree: map<Id, nat>, ghost w: Deps) returns (queue: seq<Id>)
    requires NoDup(nodes) && Counts(degree, Elems(nodes), w)
    ensures QueueExact(queue, nodes, [], w)
  {
    queue := [];
    for i := 0 to |nodes|
      invariant NoDup(queue)
      invariant forall n :: n in queue <==> n in nodes[..i] && Targets(w, n) == {}
    {
      assert nodes[..i + 1] == nodes[..i] + [nodes[i]];
      assert nodes[i] in Elems(nodes) && nodes[i] !in nodes[..i];
      if degree[nodes[i]] == 0 {
        queue := queue + [nodes[i]];
      }
    }
    assert nodes[..|nodes|] == nodes;
    LeastFirst(queue);
    queue := Sort(TextLe, queue);
  }

  /** Taking the least queued node keeps the sorted part greedy. */
  lemma TakeLeast(nodes: seq<Id>, queue: seq<Id>, sorted: seq<Id>, w: Deps, pending: Deps)
    requires NoDup(nodes) && queue != [] && QueueExact(queue, nodes, sorted, pending)
    requires forall a, b :: (a, b) in pending <==> (a, b) in w && b !in sorted
    requires Greedy(w, Elems(nodes), sorted)
    ensures var q := Sort(TextLe, queue);
            && Greedy(w, Elems(nodes), sorted + [q[0]])
            && |sorted| + 1 <= |nodes|
            && (forall a :: (a, q[0]) in w ==> a !in sorted + [q[0]])
            && QueueExact(q[1..], nodes, sorted + [q[0]], pending)
            && PendingWhile(pending, w, sorted + [q[0]], q[0], [])
  {
    ReadyIffQueued(nodes, queue, sorted, w, pending);
    LeastFirst(queue);
    var q := Sort(TextLe, queue);
    assert q == [q[0]] + q[1..];
    assert Ready(w, Elems(nodes), sorted, q[0]);
    GreedyExtends(w, Elems(nodes), sorted, q[0]);
    GreedyBound(w, nodes, sorted + [q[0]]);
    WaitersUnsorted(w, Elems(nodes), sorted, q[0]);
    forall a, b ensures (a, b) in pending <==> (a, b) in w && (b == q[0] || b !in sorted + [q[0]]) {
      assert q[0] !in sorted;
    }
  }

  /** dependency-graph.ts, lines 205-209: the unsorted nodes, sorted. */
  method CycleReport(nodes: seq<Id>, sorted: seq<Id>) returns (cycleNodes: seq<Id>)
    requires NoDup(nodes)
    ensures NoDup(cycleNodes) && SortedBy(TextLe, cycleNodes)
    ensures forall x :: x in cycleNodes <==> x in nodes && x !in sorted
  {
    var unsorted := Filter(n => n !in sorted, nodes);
    FilterNoDup(n => n !in sorted, nodes);
    TextOrder();
    LeastFirst(unsorted);
    SortSorts(TextLe, unsorted);
    cycleNodes := Sort(TextLe, unsorted);
  }

  lemma AllSortedIff(nodes: seq<Id>, sorted: seq<Id>)
    requires NoDup(nodes) && NoDup(sorted) && Elems(sorted) <= Elems(nodes)
    ensures |sorted| <= |nodes|
    ensures |sorted| == |nodes| <==> Elems(sorted) == Elems(nodes)
    ensures |sorted| < |nodes| <==> exists x :: x in nodes && x !in sorted
  {
    NoDupCardinality(nodes);
    NoDupCardinality(sorted);
    SubsetCardinality(Elems(sorted), Elems(nodes));
    if forall x :: x in nodes ==> x in sorted {
      assert Elems(sorted) == Elems(nodes);
    }
    if |sorted| == |nodes| {
      assert forall x :: x in nodes ==> x in Elems(sorted);
    }
  }

  /** dependency-graph.ts, lines 147-212: Kahn's algorithm. The sorted part is greedy; what it misses reaches a cycle. */
  method TopologicalSort(nodes: seq<Id>, adjacency: map<Id, seq<Id>>, ghost deps: Deps)
    returns (sorted: seq<Id>, hasCycle: bool, cycleNodes: seq<Id>)
    requires NoDup(nodes) && Represents(adjacency, deps)
    ensures var w := Within(deps, Elems(nodes));
            && (hasCycle <==> exists x :: x in nodes && ReachesCycle(w, x))
            && (hasCycle ==> IsCycleReport(w, Elems(nodes), cycleNodes))
            && (!hasCycle ==> IsLeastInstallOrder(w, Elems(nodes), sorted))
  {
    ghost var w := Within(deps, Elems(nodes));
    var rev, degree := ReverseEdges(nodes, adjacency, deps);
    ghost var pending := w;
    var queue := InitialQueue(nodes, degree, w);
    sorted := [];
    while queue != []
      invariant forall a, b :: (a, b) in pending <==> (a, b) in w && b !in sorted
      invariant Counts(degree, Elems(nodes), pending)
      invariant QueueExact(queue, nodes, sorted, pending)
      invariant Greedy(w, Elems(nodes), sorted)
      decreases |nodes| - |sorted|
    {
      TakeLeast(nodes, queue, sorted, w, pending);
      queue := Sort(TextLe, queue);
      var current := queue[0];
      queue := queue[1..];
      sorted := sorted + [current];
      degree, queue := Discharge(nodes, rev, degree, current, sorted, queue, w, pending);
      pending := Outstanding(w, sorted);
    }

    GreedyTakesEachOnce(w, Elems(nodes), sorted);
    LeftoverReachesCycle(w, nodes, sorted, pending);
    AllSortedIff(nodes, sorted);
    if |sorted| < |nodes| {
      cycleNodes := CycleReport(nodes, sorted);
      return sorted, true, cycleNodes;
    }
    GreedyIsLeast(w, Elems(nodes), sorted);
    return sorted, false, [];
  }

  lemma GreedyExtends(w: Deps, nodes: set<Id>, s: seq<Id>, x: Id)
    requires Greedy(w, nodes, s)
    requires Ready(w, nodes, s, x) && forall y :: Ready(w, nodes, s, y) ==> TextLe(x, y)
    ensures Greedy(w, nodes, s + [x])
  {
    var t := s + [x];
    assert t[..|s|] == s;
    forall i | 0 <= i < |s| ensures t[..i] == s[..i] && t[i] == s[i] {
    }
  }

  lemma GreedyBound(w: Deps, nodes: seq<Id>, s: seq<Id>)
    requires NoDup(nodes) && Greedy(w, Elems(nodes), s)
    ensures |s| <= |nodes|
  {
    GreedyTakesEachOnce(w, Elems(nodes), s);
    NoDupCardinality(s);
    NoDupCardinality(nodes);
    SubsetCardinality(Elems(s), Elems(nodes));
  }

  /** Nothing that depends on the package just taken can have been taken already. */
  lemma WaitersUnsorted(w: Deps, nodes: set<Id>, s: seq<Id>, x: Id)
    requires Greedy(w, nodes, s) && Ready(w, nodes, s, x)
    ensures forall a :: (a, x) in w ==> a !in s + [x]
  {
  }

  lemma LeftoverReachesCycle(w: Deps, nodes: seq<Id>, sorted: seq<Id>, pending: Deps)
    requires w == Within(w, Elems(nodes)) && NoDup(sorted)
    requires QueueExact([], nodes, sorted, pending)
    requires forall a, b :: (a, b) in pending <==> (a, b) in w && b !in sorted
    requires forall i, b :: 0 <= i < |sorted| && (sorted[i], b) in w ==> b in sorted[..i]
    ensures forall x :: x in nodes ==> (x !in sorted <==> ReachesCycle(w, x))
  {
    var rest := set x | x in nodes && x !in sorted;
    forall u | u in rest ensures DependsInto(w, rest, u) {
      assert u !in [];
      assert Targets(pending, u) != {};
      var b :| b in Targets(pending, u);
      var e :| e in pending && e.0 == u && e.1 == b;
      assert e == (u, b);
      assert (u, b) in Within(w, Elems(nodes));
      assert b in rest;
    }
    forall x | x in nodes ensures x !in sorted <==> ReachesCycle(w, x) {
      if x in sorted {
        OrderedNeverReachesCycle(w, sorted, x);
      } else {
        StuckReachesCycle(w, rest, x);
      }
    }
  }

  // ---- The resolver ----

  /** What resolution promises of its result, for every input. */
  ghost predicate IsResolution(roots: seq<Id>, edges: seq<Edge>, known: set<Id>, r: Resolution) {
    var edgeConflicts := EdgeConflicts(edges, known, |edges|);
    if exists x :: x in roots && x !in known then
      r == Resolution(false, [], {}, RootConflicts(roots, known))
    else if RequiredMissing(edges, known) then
      r == Resolution(false, [], {}, edgeConflicts)
    else
      IsReachableResolution(roots, Kept(edges, known, |edges|), edgeConflicts, r)
  }

  ghost predicate IsReachableResolution(roots: seq<Id>, kept: Deps, edgeConflicts: seq<Conflict>, r: Resolution) {
    && (forall x :: x in r.reachable <==> ReachableFrom(kept, roots, x))
    && (r.ok <==> forall x :: x in r.reachable ==> !ReachesCycle(kept, x))
    && (r.ok ==> IsLeastInstallOrder(kept, r.reachable, r.order) && r.conflicts == edgeConflicts)
    && (!r.ok ==>
          && r.order == []
          && exists c ::
            && r.conflicts == edgeConflicts + [Conflict(CycleDetected, c)]
            && IsCycleReport(kept, r.reachable, c))
  }

  /** The reported packages: sorted, once each, exactly those from which a cycle can be reached. */
  ghost predicate IsCycleReport(deps: Deps, nodes: set<Id>, c: seq<Id>) {
    NoDup(c) && SortedBy(TextLe, c) && forall x :: x in c <==> x in nodes && ReachesCycle(deps, x)
  }

  lemma {:induction false} RootConflictsIff(roots: seq<Id>, known: set<Id>)
    ensures RootConflicts(roots, known) != [] <==> exists x :: x in roots && x !in known
  {
    if roots != [] {
      var init, last := roots[..|roots| - 1], roots[|roots| - 1];
      RootConflictsIff(init, known);
      assert roots == init + [last];
      if last !in known {
        assert last in roots;
      }
    }
  }

  /** Set.add on an insertion-ordered set. */
  function AddOnce(s: seq<Id>, x: Id): seq<Id> {
    if x in s then s else s + [x]
  }

  /** dependency-graph.ts, lines 262-293: the part of resolution after nothing required was found missing. */
  method ResolveReachable(roots: seq<Id>, adjacency: map<Id, seq<Id>>, conflicts: seq<Conflict>, ghost kept: Deps)
    returns (r: Resolution)
    requires Represents(adjacency, kept)
    ensures IsReachableResolution(roots, kept, conflicts, r)
  {
    var reachable := CollectReachable(roots, adjacency, kept);
    ghost var found := reachable;
    for i := 0 to |roots|
      invariant reachable == found
    {
      assert Joins(kept, [roots[i]], roots[i], roots[i]);
      assert Reaches(kept, roots[i], roots[i]) && roots[i] in roots;
      assert ReachableFrom(kept, roots, roots[i]);
      reachable := AddOnce(reachable, roots[i]);
    }
    ghost var nodes := Elems(reachable);
    forall a, b | (a, b) in kept && a in nodes ensures b in nodes {
      ExtendReach(kept, roots, a, b);
    }
    var sorted, hasCycle, cycleNodes := TopologicalSort(reachable, adjacency, kept);
    forall x | x in nodes ensures ReachesCycle(Within(kept, nodes), x) <==> ReachesCycle(kept, x) {
      ClosedKeepsCycles(kept, nodes, x);
    }
    if hasCycle {
      assert IsCycleReport(kept, nodes, cycleNodes);
      return Resolution(false, [], Elems(reachable), conflicts + [Conflict(CycleDetected, cycleNodes)]);
    }
    ClosedKeepsLeast(kept, nodes, sorted);
    return Resolution(true, sorted, Elems(reachable), conflicts);
  }

  /** dependency-graph.ts, lines 221-294. */
  method ResolveDependencyGraph(roots: seq<Id>, edges: seq<Edge>, known: set<Id>) returns (r: Resolution)
    ensures IsResolution(roots, edges, known, r)
  {
    var conflicts: seq<Conflict> := [];
    for i := 0 to |roots|
      invariant conflicts == RootConflicts(roots[..i], known)
    {
      assert roots[..i + 1][..i] == roots[..i];
      if roots[i] !in known {
        conflicts := conflicts + [Conflict(MissingDependency, [roots[i]])];
      }
    }
    assert roots[..|roots|] == roots;
    RootConflictsIff(roots, known);
    if |conflicts| > 0 {
      return Resolution(false, [], {}, conflicts);
    }

    var adjacency, edgeConflicts := BuildAdjacency(edges, known);
    conflicts := conflicts + edgeConflicts;
    assert conflicts == edgeConflicts;
    MissingConflictIff(edges, known, |edges|);
    if exists c :: c in conflicts && c.kind == MissingDependency {
      return Resolution(false, [], {}, conflicts);
    }
    r := ResolveReachable(roots, adjacency, conflicts, Kept(edges, known, |edges|));
  }

  // ---- Consequences over every input ----

  /** An earlier edge has the same text. */
  ghost predicate Repeats(edges: seq<Edge>, i: nat) {
    && i < |edges|
    && exists j :: 0 <= j < i && edges[j].fromId + [0x2192] + edges[j].toId == edges[i].fromId + [0x2192] + edges[i].toId
  }

  /** The i-th edge gives the conflict: as a duplicate, or as a required dependency that is missing. */
  ghost predicate GivesConflict(edges: seq<Edge>, known: set<Id>, i: nat, c: Conflict) {
    && i < |edges| && c.ids == [edges[i].fromId, edges[i].toId]
    && if Repeats(edges, i) then c.kind == DuplicateEdge
       else c.kind == MissingDependency && edges[i].required && edges[i].toId !in known
  }

  lemma {:induction false} EdgeConflictsAre(edges: seq<Edge>, known: set<Id>, n: nat, c: Conflict)
    requires n <= |edges|
    ensures c in EdgeConflicts(edges, known, n) <==> exists i: nat :: i < n && GivesConflict(edges, known, i, c)
  {
    if n > 0 {
      EdgeConflictsAre(edges, known, n - 1, c);
      assert IsFirst(edges, n - 1) <==> !Repeats(edges, n - 1);
      assert c in ConflictAt(edges, known, n - 1) <==> GivesConflict(edges, known, n - 1, c);
    }
  }

  lemma {:induction false} RootConflictsAre(roots: seq<Id>, known: set<Id>, c: Conflict)
    ensures c in RootConflicts(roots, known) <==> exists x :: x in roots && x !in known && c == Conflict(MissingDependency, [x])
  {
    if roots != [] {
      var init, last := roots[..|roots| - 1], roots[|roots| - 1];
      RootConflictsAre(init, known, c);
      assert roots == init + [last];
    }
  }

  /**
   * The conflicts of a result: when some root is unknown, one of the missing kind for each such root; otherwise those the
   * edges give, and besides, when all of these are duplicates and a cycle is reachable, one that reports it.
   */
  lemma ConflictsFromInput(roots: seq<Id>, edges: seq<Edge>, known: set<Id>, r: Resolution, c: Conflict)
    requires IsResolution(roots, edges, known, r)
    ensures if exists x :: x in roots && x !in known then
              c in r.conflicts <==> exists x :: x in roots && x !in known && c == Conflict(MissingDependency, [x])
            else if c.kind == CycleDetected then
              c in r.conflicts ==> !r.ok && r.order == [] && c.ids != []
            else
              c in r.conflicts <==> exists i: nat :: GivesConflict(edges, known, i, c)
  {
    RootConflictsAre(roots, known, c);
    EdgeConflictsAre(edges, known, |edges|, c);
    if !(exists x :: x in roots && x !in known) && !RequiredMissing(edges, known) && !r.ok {
      var report :| r.conflicts == EdgeConflicts(edges, known, |edges|) + [Conflict(CycleDetected, report)]
                    && IsCycleReport(Kept(edges, known, |edges|), r.reachable, report);
      var x :| x in r.reachable && ReachesCycle(Kept(edges, known, |edges|), x);
      assert x in report;
    }
  }

  /** The dependencies that count: those of edges that repeat none and whose target is known, required or not. */
  lemma KeptFromEdges(edges: seq<Edge>, known: set<Id>, a: Id, b: Id)
    ensures (a, b) in Kept(edges, known, |edges|) <==>
              b in known && exists i: nat :: i < |edges| && !Repeats(edges, i) && edges[i].fromId == a && edges[i].toId == b
  {
    forall i: nat | i < |edges| ensures IsFirst(edges, i) <==> !Repeats(edges, i) {
    }
    if b in known {
      if i: nat :| i < |edges| && !Repeats(edges, i) && edges[i].fromId == a && edges[i].toId == b {
        assert IsFirst(edges, i);
      }
    }
  }

  /** Resolution succeeds exactly when nothing required is missing anywhere and no cycle is reachable. */
  lemma ResolvesIff(roots: seq<Id>, edges: seq<Edge>, known: set<Id>, r: Resolution)
    requires IsResolution(roots, edges, known, r)
    ensures r.ok <==>
            && (forall x :: x in roots ==> x in known)
            && !RequiredMissing(edges, known)
            && forall x :: ReachableFrom(Kept(edges, known, |edges|), roots, x)
                       ==> !OnCycle(Kept(edges, known, |edges|), x)
  {
    var kept := Kept(edges, known, |edges|);
    if (forall x :: x in roots ==> x in known) && !RequiredMissing(edges, known) {
      if x :| x in r.reachable && ReachesCycle(kept, x) {
        var y :| Reaches(kept, x, y) && OnCycle(kept, y);
        ReachTransitive(kept, roots, x, y);
        assert ReachableFrom(kept, roots, y) && OnCycle(kept, y);
      }
      if x :| ReachableFrom(kept, roots, x) && OnCycle(kept, x) {
        assert Joins(kept, [x], x, x);
        assert Reaches(kept, x, x);
      }
    }
  }

  lemma ReachTransitive(deps: Deps, roots: seq<Id>, x: Id, y: Id)
    requires ReachableFrom(deps, roots, x) && Reaches(deps, x, y)
    ensures ReachableFrom(deps, roots, y)
  {
    var r :| r in roots && Reaches(deps, r, x);
    var p :| Joins(deps, p, r, x);
    var q :| Joins(deps, q, x, y);
    var pq := p + q[1..];
    forall i | 0 <= i < |pq| - 1 ensures (pq[i], pq[i + 1]) in deps {
      if i < |p| - 1 {
        assert (p[i], p[i + 1]) in deps;
      } else {
        assert pq[i] == q[i - (|p| - 1)] && pq[i + 1] == q[i - (|p| - 1) + 1];
      }
    }
    assert Joins(deps, pq, r, y);
  }

  /** The order depends only on which roots were asked for and which dependencies were kept. */
  lemma OrderDeterminedByKeptEdges(roots0: seq<Id>, edges0: seq<Edge>, known0: set<Id>, r0: Resolution,
                                   roots1: seq<Id>, edges1: seq<Edge>, known1: set<Id>, r1: Resolution)
    requires IsResolution(roots0, edges0, known0, r0) && r0.ok
    requires IsResolution(roots1, edges1, known1, r1) && r1.ok
    requires Elems(roots0) == Elems(roots1)
    requires Kept(edges0, known0, |edges0|) == Kept(edges1, known1, |edges1|)
    ensures r0.order == r1.order
  {
    var kept := Kept(edges0, known0, |edges0|);
    forall x ensures ReachableFrom(kept, roots0, x) <==> ReachableFrom(kept, roots1, x) {
      assert forall r :: r in roots0 <==> r in Elems(roots0);
      assert forall r :: r in roots1 <==> r in Elems(roots1);
    }
    assert r0.reachable == r1.reachable;
    LeastInstallOrderUnique(kept, r0.reachable, r0.order, r1.order);
  }

  predicate SamePair(e: Edge, f: Edge) {
    e.fromId == f.fromId && e.toId == f.toId
  }

  /** The text of f is that of e cut at a later arrow: f.from is e.from→m and e.to is m→f.to, for some m. */
  predicate Shifts(e: Edge, f: Edge) {
    var n := |e.fromId|;
    && n < |f.fromId| && f.fromId[..n] == e.fromId && f.fromId[n] == ARROW
    && e.toId == f.fromId[n + 1..] + [ARROW] + f.toId
  }

  /** The condition under which two edges share a key. */
  predicate Collides(e: Edge, f: Edge) {
    SamePair(e, f) || Shifts(e, f) || Shifts(f, e)
  }

  lemma ShiftSharesKey(e: Edge, f: Edge)
    requires Shifts(e, f)
    ensures EdgeKey(e) == EdgeKey(f)
  {
    var n := |e.fromId|;
    var m := f.fromId[n + 1..];
    assert f.fromId == e.fromId + ([ARROW] + m);
    assert EdgeKey(e) == e.fromId + ([ARROW] + (m + [ARROW] + f.toId));
    assert EdgeKey(f) == e.fromId + ([ARROW] + m) + [ARROW] + f.toId;
  }

  lemma LongerShifts(e: Edge, f: Edge)
    requires EdgeKey(e) == EdgeKey(f) && |e.fromId| < |f.fromId|
    ensures Shifts(e, f)
  {
    var n, key := |e.fromId|, EdgeKey(e);
    assert f.fromId == key[..|f.fromId|] && e.fromId == key[..n];
    assert key[n] == ARROW && f.fromId[n] == key[n];
    assert e.toId == key[n + 1..];
    assert key[n + 1..] == key[n + 1..|f.fromId|] + key[|f.fromId|..];
    assert key[|f.fromId|..] == [ARROW] + f.toId;
    assert key[n + 1..|f.fromId|] == f.fromId[n + 1..];
  }

  /** Two edges share a key exactly when they name the same pair or one is the other cut at another arrow. */
  lemma EdgeKeysEqualIff(e: Edge, f: Edge)
    ensures EdgeKey(e) == EdgeKey(f) <==> Collides(e, f)
  {
    if Shifts(e, f) {
      ShiftSharesKey(e, f);
    } else if Shifts(f, e) {
      ShiftSharesKey(f, e);
    } else if EdgeKey(e) == EdgeKey(f) {
      if |e.fromId| < |f.fromId| {
        LongerShifts(e, f);
      } else if |f.fromId| < |e.fromId| {
        LongerShifts(f, e);
      } else {
        assert EdgeKey(e)[..|e.fromId|] == e.fromId && EdgeKey(f)[..|e.fromId|] == f.fromId;
        assert EdgeKey(e)[|e.fromId| + 1..] == e.toId && EdgeKey(f)[|e.fromId| + 1..] == f.toId;
      }
    }
  }

  /** An edge is dropped as a duplicate exactly when an earlier edge collides with it. */
  lemma DuplicateIff(edges: seq<Edge>, i: nat)
    requires i < |edges|
    ensures !IsFirst(edges, i) <==> exists j :: 0 <= j < i && Collides(edges[j], edges[i])
  {
    forall j | 0 <= j < i ensures EdgeKey(edges[j]) == EdgeKey(edges[i]) <==> Collides(edges[j], edges[i]) {
      EdgeKeysEqualIff(edges[j], edges[i]);
    }
  }

  /** So with no arrow in the depending ids a duplicate is a repeated pair. */
  lemma DuplicateIffPairRepeats(edges: seq<Edge>, i: nat)
    requires i < |edges|
    requires forall j :: 0 <= j <= i ==> ARROW !in edges[j].fromId
    ensures !IsFirst(edges, i) <==> exists j :: 0 <= j < i && SamePair(edges[j], edges[i])
  {
    DuplicateIff(edges, i);
    forall j | 0 <= j < i ensures Collides(edges[j], edges[i]) ==> SamePair(edges[j], edges[i]) {
      assert ARROW !in edges[j].fromId && ARROW !in edges[i].fromId;
    }
  }

  /** A required edge that is lost this way: a→(b→c) hides (a→b)→c. */
  lemma ArrowCollisionDropsEdge()
    ensures var a, b, c := [97], [98], [99];
            var hidden := Edge(a + [ARROW] + b, c, true);
            var edges := [Edge(a, b + [ARROW] + c, false), hidden];
            edges[0] != hidden && !IsFirst(edges, 1) && !RequiredMissing(edges, {})
  {
  }
}
